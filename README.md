# Watermark backend: a verified model of its deterministic core

The repository is a FastAPI backend around an image-watermarking service.
Users sign up and log in with JWT access tokens. They upload PNG images,
which are stored in an S3 bucket under per-image paths. They can submit an
image for validation, and a pixel-difference analyser reports how much of
it was tampered with. Two background schedulers send weekly report e-mails.

This project models the parts of that backend that decide something
without I/O, and proves what they promise:

- `TamperMask` (tamper_mask.dfy) models `create_difference_mask`. It takes
  the per-pixel RGB difference threshold, counts the tampered pixels, turns
  the count into a percentage, and builds the RGBA overlay in a
  two-dimensional array. It also models the in-place block painting that
  the tests use to build tampered images.
- `Storage` (storage.dfy) models the storage service:
  - the bucket path and URL conventions: the extension stem, the
    `_origi`/`_wm` copies, the legacy `gt.png`/`sr_h.png` names, and record
    paths;
  - a `BlobStore` class whose upload and delete loops change a map from
    path to bytes and a log of the requests sent.
- `ImageService` (image_service.dfy) models the upload-file check and the
  `protected_` prefix removal.
- `Api` (api.dfy) models the older router: its own file check, which
  differs from the service's, and the four-path upload loop.
- `Auth` (auth.dfy) models the access-token guard, the API-key guard and
  the password rule.
- `Schemas` (schemas.dfy) models the request-field limits, the date
  pattern and the response defaults.
- `Scheduler` (scheduler.dfy) models `BackgroundScheduler`:
  - the weekly, daily and interval due-check;
  - a class whose methods append tasks, record completed runs, run one
    worker pass, and flip the running flag.
- `BackgroundTasks` (background_tasks.dfy) models `SimpleScheduler`:
  - the next-Sunday-9am arithmetic and the Sunday 09:00-09:05 trigger;
  - a class whose polling loop counts firings and records runs.
- `Models` (models.dfy) models the three protection algorithms.
- Two modules are shared:
  - `Common` (common.dfy) holds `Option`/`Result`, the failures a handler
    ends in, and string helpers such as `str(int)`, `startswith`,
    `endswith` and last-index.
  - `Clock` (clock.dfy) models `datetime` as microseconds since
    0001-01-01, a Monday, so `weekday()` is the day count modulo 7.

Calls into other systems are passed in:

- **JWT decoding** is a function from token to payload.
- **The API-key lookup** is a function from key to an optional user id.
  It assumes the user table has the `api_key` column the lookup queries
  (app/services/auth_service.py:92); the `User` model shown in
  app/models.py declares none, and with it as written every "ak_" key
  would raise `AttributeError` instead.
- **The storage backend** is given as the set of paths whose put or delete
  it refuses, together with its error text.
- **The clock** is given as the instant of each `datetime.now()` reading.
- **Scheduled functions and the report send** are given by whether and
  when they return.

An exception that the code does not catch becomes `Unhandled`, which the
framework answers with a 500. An `HTTPException` becomes
`Http(status, detail)`.

## Model

| member | source | states |
|---|---|---|
| TamperMask.ThresholdIsStrict | test_mask_simple.py:35-42 | a pixel one channel off by exactly 10 is not tampered; off by 11 it is (the test is `> 10`, strictly) |
| TamperMask.Tampered | test_mask_simple.py:35-42 | a pixel pair is tampered iff the squared RGB distance exceeds 10², i.e. the Euclidean distance exceeds the threshold 10 strictly |
| TamperMask.MarkRow | test_mask_simple.py:50-52 | paints one row of the overlay: red half-opaque where tampered, transparent elsewhere, other rows untouched; returns the row's tampered count |
| TamperMask.BuildMask | test_mask_simple.py:42-52 | the overlay has the reference's dimensions, each cell is (255,0,0,180) for a tampered pixel and (0,0,0,0) otherwise, and the count is the number of tampered pixels |
| TamperMask.MaskGrid | test_mask_simple.py:42-52 | the overlay as a value: the reference's dimensions, each cell (255,0,0,180) where the pair is tampered and (0,0,0,0) elsewhere |
| TamperMask.GridCount | test_mask_simple.py:45-46 | the number of tampered pixel pairs over the whole image (`np.sum` of the boolean mask); its bound is in GridCountBounded |
| TamperMask.CreateDifferenceMask | test_mask_simple.py:13-68 | an image that failed to decode gives no mask and rate 0.0; otherwise the mask above and rate = tampered / (height·width) · 100 |
| TamperMask.GridCountBounded | test_mask_simple.py:45-46 | the tampered count never exceeds the number of pixels |
| TamperMask.RateIsPercentage | test_mask_simple.py:47 | a count within the total gives a rate in [0, 100] |
| TamperMask.TamperingRate | test_mask_simple.py:47 | 0.0 when there are no pixels; otherwise the rate times the total equals the count times 100 |
| TamperMask.AnalyserRateIsPercentage | test_mask_simple.py:45-47 | the analyser's rate always lies in [0, 100] |
| TamperMask.IdenticalImagesUntouched | test_mask_simple.py:167-191 | an image compared with itself has no tampered pixel, rate 0.0 and a fully transparent mask |
| TamperMask.MaskMatchesCount | test_mask_simple.py:50-52 | the number of non-transparent overlay pixels equals the tampered count |
| TamperMask.RecolouredBlockCount | test_robustwide_mask.py:34-37 | recolouring a size×size block of a uniform image with a colour more than 10 away tampers exactly size² pixels |
| TamperMask.RedSquareInBlueImage | test_robustwide_mask.py:90-94 | the test's expectation, applied to this model's analyser (the test itself calls a validation-service helper that is not part of this model): a 20×20 red square at (40,40) in a 100×100 blue image gives a rate of exactly 4.0 |
| TamperMask.PaintBlock | test_mask_simple.py:84-96 | the nested pixel loops set exactly the block to the colour and leave every other pixel as it was |
| Storage.Stem | app/services/storage_service.py:83 | without a '.' the stem is the whole name; otherwise it is the prefix before the last '.', with no '.' after it |
| Storage.StemThenExtension | app/services/storage_service.py:83 | stripping a dot-free extension gives back the name ("a.b.png" has stem "a.b") |
| Storage.ImagePaths | app/services/storage_service.py:80-93 | two distinct paths under `image/{id}/`; with a filename they are exactly `image/{id}/{stem}_origi.png` then `image/{id}/{stem}_wm.png`, the stem being the name before its last '.'; with none or "" they are `gt.png` then `sr_h.png` |
| Storage.GetImageUrls | app/services/storage_service.py:99-112 | with a filename the "gt" and "sr_h" URLs are `{dir}/{id}/{stem}_origi.png` and `{dir}/{id}/{stem}_wm.png`; with none or "" they end in `gt.png` and `sr_h.png` |
| Storage.UrlsMirrorPaths | app/services/storage_service.py:99-112 | the "gt" and "sr_h" URLs name the same objects as the two paths: the public directory followed by the path after "image/" |
| Storage.DistinctImagesDisjointPaths | app/services/storage_service.py:84-93 | two different image ids never share a path, whatever the filenames |
| Storage.RecordPath | app/services/storage_service.py:95-97 | the path is exactly "record/" + uuid + "/" + filename, so it starts with "record/" and ends with "/" + filename |
| Storage.RecordPathInjective | app/services/storage_service.py:95-97 | with slash-free ids, the record path determines both the id and the filename |
| Storage.BlobStore.UploadFile | app/services/storage_service.py:22-34 | one put is sent; a refused put is a 500 with the Korean prefix plus the backend's text and changes nothing; otherwise the blob is written |
| Storage.BlobStore.UploadMultipleFiles | app/services/storage_service.py:36-49 | puts are sent in order up to and including the first refused path; the paths before it hold the bytes; any refusal is a 500; earlier writes stay |
| Storage.WriteAllContents | app/services/storage_service.py:39-44 | writing the same bytes at a list of paths adds exactly those keys, each holding the bytes, and keeps every other blob |
| Storage.BlobStore.DeleteFile | app/services/storage_service.py:62-68 | never fails: one delete is sent and the blob is removed unless the backend refuses |
| Storage.BlobStore.DeleteMultipleFiles | app/services/storage_service.py:70-73 | a delete is sent for every path in list order, and exactly the paths not refused are removed |
| Storage.BlobStore.CleanupImageFiles | app/services/storage_service.py:75-78 | deletes exactly the two `get_image_paths` paths and leaves every other blob as it was |
| ImageService.ValidateFile | app/services/image_service.py:22-46 | passes iff the file is present, the name is non-empty and ends in ".png", the type is "image/png" and the size is unset, 0 or within the limit; no file gives 400; a bad name or type gives 400; an accepted name and type with a size over the limit gives 413 with the limit in the detail, and a 413 only follows an accepted name and type |
| ImageService.SizeLimitInclusive | app/services/image_service.py:42-46 | a file of exactly MAX_FILE_SIZE_MB MiB passes; one byte more is a 413 naming the limit |
| ImageService.CleanFilename | app/services/image_service.py:48-52 | None stays None; the result is a suffix of the name, 10 characters shorter iff the name starts with "protected_", and otherwise the same |
| ImageService.CleanRemovesPrefix | app/services/image_service.py:50-51 | "protected_" + name cleans to name |
| ImageService.CleanRemovesOnlyOnePrefix | app/services/image_service.py:50-51 | a doubled prefix loses only one copy |
| Api.ValidateFile | api.py:78-86 | passes iff the file is present, its name and size are set, the name ends in ".png", the type is "image/png" and the size is at most 10 MiB; no file gives 400 "File is required"; a set name not ending in ".png", or a wrong type, gives 400 "Only PNG files are allowed"; an unset name raises `AttributeError`, an unset size (after name and type pass) `TypeError`; an oversized file gives 400 "File size exceeds 10MB limit" |
| Api.ValidatorsAgree | api.py:78-86 | for set names and sizes, it accepts the same files as the service check with a 10 MB limit; an oversized file is a 400 here and a 413 there |
| Api.UploadLimitInclusive | api.py:85-86 | exactly 10 MiB passes, one byte more is a 400 |
| Api.UploadPaths | api.py:164-167 | the four paths `/{idx}/gt.png`, `/{idx}/lr.png`, `/{idx}/sr.png`, `/{idx}/sr_h.png`, in this order, pairwise distinct |
| Api.UploadPathsOutsideImageDir | api.py:164-167 | none of these paths is one of the storage service's `image/{id}/` paths |
| Api.Upload | api.py:147-175 | a token refusal or file refusal returns that failure and leaves the bucket unchanged; otherwise the four puts in order up to the first refused one, with a 500 carrying the backend's text |
| Auth.UserIdFromToken | app/services/auth_service.py:40-61 | a missing or empty token is 401 "Access token missing"; the result is a user id iff the token decodes and has a subject, and that subject is the id; every refusal is a 401 |
| Auth.MissingTokenNeverDecoded | app/services/auth_service.py:41-45 | for a missing or empty token, the answer does not depend on the decoder |
| Auth.UserIdFromApiKey | app/services/auth_service.py:81-101 | a missing key or one without "ak_" is a 401; the result is the user id as decimal text iff the key has the prefix and a user holds it; every refusal is the same 401 |
| Auth.UnprefixedKeyNeverLooked | app/services/auth_service.py:83-87 | for a key without the prefix, the answer does not depend on the lookup |
| Auth.FindLetter | app/services/auth_service.py:73 | the scan finds an ASCII letter iff the password contains one |
| Auth.FindDigit | app/services/auth_service.py:75 | the scan finds a digit iff the password contains one |
| Auth.FindSpecial | app/services/auth_service.py:77 | the scan finds one of the twenty special characters of the pattern iff the password contains one |
| Auth.ValidatePassword | app/services/auth_service.py:69-79 | valid iff at least 8 characters with a letter, a digit and a special character |
| Auth.ExtendingKeepsValid | app/services/auth_service.py:71-79 | appending characters to a valid password keeps it valid |
| Auth.PasswordExamples | app/services/auth_service.py:71-78 | "abcdef1!" is valid; seven characters, no letter, no digit or no special character each make it invalid |
| Schemas.BaseResponseDefaults | app/schemas.py:5-8 | a response built from data alone has success true and no description |
| Schemas.TokenResponseDefault | app/schemas.py:35-38 | the token type defaults to "bearer" |
| Schemas.SchemaPasswordWeakerThanRule | app/schemas.py:17-20 | every password the service rule accepts passes the schema's length bound, but "abc12!" passes the schema and fails the rule |
| Schemas.UserCreateAdmits | app/schemas.py:17-20 | the schema admits a name of 1 to 255 characters and a password of at least 6; e-mail syntax is a library check outside this model |
| Schemas.UserReportLimits | app/schemas.py:86-89 | the id must be exactly 36 characters; link and text are optional and are admitted at 2000 and 10000 characters but not one more |
| Schemas.UserReportAdmits | app/schemas.py:86-89 | the schema admits a 36-character id, an optional link of at most 2000 characters and an optional text of at most 10000 |
| Schemas.DateShaped | app/schemas.py:108-110 | the `^\d{4}-\d{2}-\d{2}$` pattern over ASCII digits: ten characters, dashes at positions 4 and 7, digits elsewhere |
| Schemas.CustomReportAdmits | app/schemas.py:108-110 | both dates have the pattern's shape; calendar validity and their order are not checked (ShapeIsNotCalendar) |
| Schemas.FormatDate | app/schemas.py:109-110 | every zero-padded year-month-day has the `\d{4}-\d{2}-\d{2}` shape |
| Schemas.ParseFormatDate | app/schemas.py:109-110 | reading back a formatted date gives the numbers back |
| Schemas.FormatParseDate | app/schemas.py:109-110 | every string of the shape is the formatting of the numbers it spells, so the pattern admits exactly the formatted dates |
| Schemas.ShapeIsNotCalendar | app/schemas.py:108-110 | "2024-13-45" is admitted: calendar validity is not checked |
| Models.ParseAlgorithmName | app/models.py:9-12 | each algorithm's value parses back to the same algorithm |
| Models.AlgorithmName | app/models.py:9-12 | each algorithm's stored value is its non-empty member name |
| Models.ParseAlgorithm | app/models.py:9-12 | a string parses to a member only when it is that member's value; any other string names no member |
| Scheduler.ShouldRunTask | app/scheduler.py:68-112 | the check raises iff it reaches `replace` with an hour or minute out of range; when due, the task is not of an unknown type and a weekly task is on its weekday; a daily task, or a weekly task on its weekday, is due iff the clock shows the target time or later and it never ran or last ran on an earlier date |
| Scheduler.WeeklyOnlyOnItsDay | app/scheduler.py:74-75 | a weekly task is never due on another weekday |
| Scheduler.NotDueBeforeTarget | app/scheduler.py:77-93 | a weekly or daily task is not due before its hour:minute |
| Scheduler.NeverRunDueAtTarget | app/scheduler.py:80-95 | a weekly task on its weekday, or a daily task, that has never run is due from its hour:minute on |
| Scheduler.SameDayNotDue | app/scheduler.py:85-100 | a weekly or daily task whose last run is on today's date is not due, so it runs at most once a day |
| Scheduler.IntervalDueIff | app/scheduler.py:102-110 | an interval task is due iff it never ran or now ≥ last run + interval |
| Scheduler.UnknownNeverDue | app/scheduler.py:112 | a task of any other type is never due |
| Scheduler.Completed | app/scheduler.py:120-129 | `last_run` becomes the completion time when the function returns and stays as it was when it raises; the schedule is kept |
| Scheduler.Visit | app/scheduler.py:142-145 | one turn of the worker's `for` loop: the schedule is kept, and `last_run` becomes the completion time exactly when the task was due and its function returned |
| Scheduler.FirstFailure | app/scheduler.py:139-151 | every check before the returned position succeeds, and the check at it raises, which ends the worker |
| Scheduler.AfterPass | app/scheduler.py:142-145 | a pass keeps the number of tasks and every schedule |
| Scheduler.PassRecordsCompletedRuns | app/scheduler.py:142-145 | after a pass, a task's `last_run` is its completion time iff the task was reached, was due and its function returned; otherwise it is unchanged |
| Scheduler.RanNotDueAgainToday | app/scheduler.py:85-100 | a weekly or daily task that ran in a pass is not due again on the date its run finished |
| Scheduler.IntervalWaitsAfterRun | app/scheduler.py:107-110 | an interval task that ran in a pass is due again exactly once the interval has passed since its run finished |
| Scheduler.BackgroundScheduler.constructor | app/scheduler.py:14-18 | no tasks, not running |
| Scheduler.BackgroundScheduler.AddWeeklyTask | app/scheduler.py:20-36 | appends one weekly task with no last run and keeps the others; a weekday outside -7..6 still appends it and then raises `IndexError` |
| Scheduler.BackgroundScheduler.AddDailyTask | app/scheduler.py:38-52 | appends one daily task with no last run and keeps the others |
| Scheduler.BackgroundScheduler.AddIntervalTask | app/scheduler.py:54-66 | appends one interval task with no last run and keeps the others |
| Scheduler.BackgroundScheduler.RunTask | app/scheduler.py:114-129 | only the chosen task changes, as `Completed` says |
| Scheduler.BackgroundScheduler.WorkerPass | app/scheduler.py:139-153 | the task list becomes `AfterPass` of the old one; the pass fails with `ValueError` iff some check raised; `running` stays as it was |
| Scheduler.BackgroundScheduler.Start | app/scheduler.py:155-164 | the flag is set (unchanged if already set); tasks are untouched |
| Scheduler.BackgroundScheduler.Stop | app/scheduler.py:166-171 | the flag is cleared; tasks are untouched |
| Scheduler.DisplayFailure | app/scheduler.py:182-185 | rendering a schedule raises iff it is weekly with a day outside -7..6 (`IndexError`) or of an unknown type; daily and interval schedules always render |
| Scheduler.FirstUndisplayable | app/scheduler.py:178-189 | the first task whose schedule cannot be rendered: every earlier one renders |
| Scheduler.BadWeekdayBreaksStatus | app/scheduler.py:184 | after a weekly task with a day outside -7..6 is appended, rendering the list raises |
| Scheduler.BackgroundScheduler.GetStatus | app/scheduler.py:173-190 | raises iff some task's schedule cannot be rendered, with the first such task's error; otherwise reports the flag, the task count and every task's last run |
| BackgroundTasks.DaysUntilSunday | app/background_tasks.py:97-99 | at most 7 and lands on a Sunday; it is 7 iff today is Sunday at or after nine, and 0 iff today is Sunday before nine |
| BackgroundTasks.NextSunday9am | app/background_tasks.py:94-102 | a Sunday at 09:00:00.000000, strictly after now and at most 7 days later |
| BackgroundTasks.NextSunday9amIsFirst | app/background_tasks.py:94-102 | every Sunday 09:00 after now is at or after the result, so the result is the first one |
| BackgroundTasks.SundayOffsets | app/background_tasks.py:97-99 | on Sunday before nine the result is today; from nine on it is a week later |
| BackgroundTasks.WindowFollowsTarget | app/background_tasks.py:33 | the trigger holds iff now is in the five minutes starting at that day's 09:00 and that day is a Sunday |
| BackgroundTasks.InWindow | app/background_tasks.py:33 | the sender's trigger: weekday 6 (Sunday), hour 9, minute below 5 |
| BackgroundTasks.FiringSchedulesNextWeek | app/background_tasks.py:33-49 | after a firing, the next run computed from the clock read after the send and the hour's sleep is the Sunday seven days after the check, for any reading from the check time until the end of that week |
| BackgroundTasks.DeliveriesAtMostFirings | app/background_tasks.py:33-42 | completed sends never exceed firings, and they are equal iff no firing send raised: `run_count` counts attempts |
| BackgroundTasks.LastSent | app/background_tasks.py:33-42 | the last run is the end time of the last poll in the window whose send returned, or the previous value when there is none |
| BackgroundTasks.NextRunAfter | app/background_tasks.py:33-49 | the next run is the Sunday 9am computed by the last poll that reached the assignment (outside the window, or its send returned), or the previous value when there is none |
| BackgroundTasks.SimpleScheduler.constructor | app/background_tasks.py:17-22 | not running, no task, no last or next run, count 0 |
| BackgroundTasks.SimpleScheduler.PollOnce | app/background_tasks.py:28-56 | in the window the count goes up by one whether or not the send succeeds; a completed send sets the last run; the next run is updated unless the send raised, and after a completed firing it is the following week's Sunday |
| BackgroundTasks.SimpleScheduler.WeeklyEmailSender | app/background_tasks.py:24-56 | while running, the count rises by the number of polls in the window the last run is the last completed send and the next run is the last one computed; when not running nothing happens |
| BackgroundTasks.SimpleScheduler.Start | app/background_tasks.py:58-66 | a no-op when running; otherwise sets the flag and starts the sender task |
| BackgroundTasks.SimpleScheduler.Stop | app/background_tasks.py:68-77 | clears the flag and ends the sender task, keeping the counters |
| BackgroundTasks.SimpleScheduler.SecondsUntilNext | app/background_tasks.py:89 | 0 iff the next run is unset or not in the future; otherwise the positive number of seconds until it |
| BackgroundTasks.SimpleScheduler.GetStatus | app/background_tasks.py:79-92 | reports the flags, counters and next run, the seconds until it, and the next Sunday 9am from its own clock reading |

## Left out

- **Image decoding is not modelled.** PIL decoding, resize to the
  reference size, RGB conversion and PNG/base64 encoding of the mask
  (test_mask_simple.py:17-28, 55-60) are left out. The analyser takes two
  decoded RGB grids of equal size. A decoding failure is an absent image.
  The mask is the RGBA array itself, not its base64 text.
- TamperMask.CreateDifferenceMask: requires equal dimensions, because the
  resize step that makes them equal is not modelled.
- **The float threshold is restated on integers.** `sqrt(sum of squares) >
  10` in float32 is modelled as an integer sum of squares > 100. For byte
  channels the two agree.
- **Exception text is not modelled.** Where a detail embeds `str(e)`, the
  text is a parameter. Uncaught exceptions are named by their Python class
  only.
- **Unicode is narrowed to ASCII.** Python's `\d` also matches non-ASCII
  digits. The date pattern and the password digit rule use ASCII digits
  only. The character class `[a-zA-Z]` is ASCII in both.
- **Whether the pattern engine lets `$` match before a final newline** is
  not modelled. The date pattern is read as a full-string match.
- **Foreign libraries are not modelled:** JWT signing and decoding, bcrypt
  hashing, `EmailStr` validation, e-mail sending, and the database queries
  behind the API-key lookup and the upload's row insert. Each is either a
  parameter or not part of this model.
- **The upload orchestration in `ImageService.upload_image`** is not part
  of this model. Api.Upload models only the router's guards and its
  four-path write; the id of the inserted row is a parameter.
- **validation_service.py is not part of this model.** It is a random
  simulation, database queries and S3 I/O. There is no identifier codec
  to model.
- **S3 download and connection tests are not modelled.** The bucket
  client is the abstract `BlobStore`.
- **Threads, event loops, sleeps and cancellation are not modelled.**
  - The scheduler worker's `while self.running` loop with its 60-second
    sleep is modelled as one pass (`WorkerPass`).
  - The sender's loop is a given sequence of polls. The 3600 s and 300 s
    sleeps show up only as the clock readings of later polls.
  - `stop` joining or cancelling the task is modelled as the task ending.
- **Scheduled functions are not modelled.** A task keeps only its
  schedule and last run. The functions are assumed to have a `__name__`,
  which the log lines and `get_status` read (app/scheduler.py:36, 117,
  180); a callable without one would raise there.
- **Display strings are not modelled:** log lines, the Korean weekday
  names in `get_status` and the ISO timestamp strings. Whether rendering a
  schedule raises is modelled (`Scheduler.DisplayFailure`); the text it
  renders is not.
- **`datetime` overflow is not modelled.** Adding an interval or seven days
  past year 9999 would raise `OverflowError` in Python; instants here are
  unbounded.
- Api.Upload: the framework's own checks before the handler are not
  modelled. The `access-token` header is declared with `APIKeyHeader`,
  which refuses a missing or empty header with 403, and the file with
  `File(...)`, which refuses a missing file with 422 (api.py:148). The
  model runs the handler body on every request, so it reports these cases
  as the handler's own 401 and 400.
- TamperMask.TamperingRate: the rate is an exact real. The source divides
  in float64, so its value can differ in the last bits.
- BackgroundTasks.SimpleScheduler.SecondsUntilNext: exact real seconds.
  The source's `total_seconds()` is a float64.
- Storage.ImagePaths: image ids are `nat`, as are those of
  Storage.GetImageUrls and Api.UploadPaths. The source's f-strings accept
  any int, so a negative id such as `image/-1/` is not modelled; the
  database hands out positive ids.
- **Negative `datetime` values are not modelled.** Instants are
  non-negative: the clock reads no earlier than 0001-01-01.
