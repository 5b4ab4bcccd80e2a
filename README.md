# Video upload gateway and pose-analysis service — a Dafny model

This project models the decision logic of a two-part video system:

- A Kotlin/Spring **gateway** accepts video uploads. It validates each upload (not empty, a declared video MIME type) and stores it under a generated name `<uuid>.<extension>` in a storage directory. A path-containment check guards the write. The gateway records the file in a repository, deletes files on request, and maps its exceptions to HTTP responses. An older controller does the same validation and maps outcomes straight to status codes.
- A Python/Django **analysis service** finds a video's file from its database record. It reads the video frame by frame, samples every `frame_skip`-th frame and runs a pose detector on it. It keeps the frames where a pose was found, tracks the largest landmark x and y, and stores the resulting analysis document.

The model's modules follow the source:

| module | file | what it holds |
|---|---|---|
| `Wrappers` | wrappers.dfy | `Option`; `Result` and `Outcome`, which stand for a call that returns or throws |
| `Strings` | strings.dfy | Kotlin's `indexOf`, `lastIndexOf` and `substringAfterLast`, and the `"${x}"` rendering of a nullable string |
| `Paths` | paths.dfy | `java.nio` Unix paths as (absolute?, names): parsing, `resolve`, `normalize`, `toAbsolutePath` and `getParent` |
| `Errors` | errors.dfy | the exception taxonomy and `CustomExceptionHandler` |
| `Storage` | storage.dfy | `VideoStorageService` as a class, with the disk as a map from path to bytes and the repository as a list of records |
| `StorageProperties` | storage_properties.dfy | lemmas about content types, generated names, containment, upload and delete |
| `Controller` | controller.dfy | `VideoUploadController`, as pure functions from the file and the storage outcome to a response |
| `AnalysisModels` | analysis_models.dfy | `LandmarkData` and `FrameAnalysis` (values), `VideoAnalysis` (a class), and their dictionary forms |
| `AnalysisService` | analysis_service.dfy | `get_video_path`, and `process_video` with its sampling loop |

Exceptions are values: a throwing call returns `Failure(e)`. The following are inputs rather than computations:

- the world outside the code: the UUID text, I/O failures, the repository's id, clocks, the database lookup, the files that exist, the frames a capture yields, and the pose detector;
- the process's working directory, given as the list of names `cwd`.

A path reaches the file `normalize(toAbsolutePath(p))` (`Storage.FileKey`). Both services key the disk by that path.

Three behaviours of the code are exposed by lemmas rather than corrected:

- `handleDeleteRequest` builds a `NotFoundException` but never throws it (VideoStorageService.kt line 70). `Storage.VideoStorageService.HandleDeleteRequest` therefore returns normally even when nothing was deleted. Its only exception is the one `resolve` throws for a name holding NUL.
- `deleteVideo` checks no containment. `StorageProperties.DeleteEscapesRoot` shows a name `../x` deleting a file beside the storage root; a store under that name would be refused.
- The root is never normalised. For a single plain name, the containment check passes exactly when the configured root is already normal and the name holds no NUL (`StorageProperties.PlainNameContainment`). Whether the store then succeeds still depends on the copy and the save. So a root with `.` names, or with `..` names in an absolute root, makes the check refuse every generated name whose extension holds no separator (`StorageProperties.UploadContainment`). A relative root that only starts with `..` (`../videos`) is normal and works.

Passing the containment check does not make the stored name separator-free. The extension is the text after the last `.`, so it never contains a `.` and cannot walk up the tree. It can still end in a separator: `clip.mov/` gives `<uuid>.mov/`, which passes (`StorageProperties.TrailingSeparatorPasses`). Under a normal root, the check accepts a generated name exactly when that name is a single path name and holds no NUL (`StorageProperties.UploadContainment`).

Further behaviours of the code that the model keeps:

- The delete request never signals "not found".
- The refusal text is "Cannot store file outside current directory".
- Only `IOException`s become "Failed to store file. …" errors; any other failure of the copy or the save passes through unchanged.
- An original name ending in `.` gives an empty extension, not `mp4`.
- A Unix `java.nio` path refuses the NUL character. `resolve` throws `InvalidPathException` with the text "Nul character not allowed: " and the name. That exception is an `IllegalArgumentException`, so the `IOException` handlers of the store and the delete do not catch it (`StorageProperties.NulExtensionRefused`).
- `process_video` divides the frame index by the fps without the `fps > 0` guard it uses for the duration. With an fps of zero, frame 0 is still sampled, so the first frame read fails the processing with the division's exception, and nothing is stored (`AnalysisService.FirstFrameAlwaysStamped`).

## Model

| member | source | states |
|---|---|---|
| Strings.IndexOf | FluentApiGateway/src/main/kotlin/com/kandrac/matej/fluentapigateway/service/VideoStorageService.kt:34 | the first position of a character, or none exactly when it does not occur |
| Strings.LastIndexOf | FluentApiGateway/src/main/kotlin/com/kandrac/matej/fluentapigateway/service/VideoStorageService.kt:76 | the last position of a character, or none exactly when it does not occur |
| Strings.SubstringAfterLast | FluentApiGateway/src/main/kotlin/com/kandrac/matej/fluentapigateway/service/VideoStorageService.kt:76 | with the delimiter absent, the default; otherwise the suffix after the last delimiter, which holds no delimiter |
| Strings.IndexOfIsFirst | FluentApiGateway/src/main/kotlin/com/kandrac/matej/fluentapigateway/service/VideoStorageService.kt:34 | a position holding the character, with none before it, is what IndexOf returns |
| Strings.Template | FluentApiGateway/src/main/kotlin/com/kandrac/matej/fluentapigateway/service/VideoStorageService.kt:99 | a present string renders as itself and a missing one as "null" |
| Paths.Segments | FluentApiGateway/src/main/kotlin/com/kandrac/matej/fluentapigateway/service/VideoStorageService.kt:34 | a path string's names are non-empty, hold no separator, and use only the string's characters |
| Paths.Parse | FluentApiGateway/src/main/kotlin/com/kandrac/matej/fluentapigateway/service/VideoStorageService.kt:34 | a path is absolute exactly when its text starts with a separator, and its names are non-empty and separator-free |
| Paths.Resolve | FluentApiGateway/src/main/kotlin/com/kandrac/matej/fluentapigateway/service/VideoStorageService.kt:80 | an absolute argument replaces the base; otherwise its names follow the base's, and the result is absolute when either is |
| Paths.Normalize | FluentApiGateway/src/main/kotlin/com/kandrac/matej/fluentapigateway/service/VideoStorageService.kt:80 | keeps absoluteness, never lengthens, and leaves no ".", ".." only in front, and no ".." in an absolute path |
| Paths.StepCanonical | FluentApiGateway/src/main/kotlin/com/kandrac/matej/fluentapigateway/service/VideoStorageService.kt:80 | one normalisation step keeps that canonical form and adds at most one name |
| Paths.NormFromCanonical | FluentApiGateway/src/main/kotlin/com/kandrac/matej/fluentapigateway/service/VideoStorageService.kt:80 | normalising onto a canonical prefix gives a canonical result no longer than both together |
| Paths.CanonicalIsFixed | FluentApiGateway/src/main/kotlin/com/kandrac/matej/fluentapigateway/service/VideoStorageService.kt:80 | normalize leaves a canonical name list unchanged |
| Paths.NormalizeIdempotent | FluentApiGateway/src/main/kotlin/com/kandrac/matej/fluentapigateway/service/VideoStorageService.kt:80 | a normalised path is normal: normalising it again changes nothing |
| Paths.ToAbsolute | FluentApiGateway/src/main/kotlin/com/kandrac/matej/fluentapigateway/service/VideoStorageService.kt:80-82 | the result is absolute; an absolute path is unchanged, and a relative one follows the working directory's names |
| Paths.Parent | FluentApiGateway/src/main/kotlin/com/kandrac/matej/fluentapigateway/service/VideoStorageService.kt:82 | a parent exists exactly for more than one name, or one name in an absolute path, and is the path without its last name |
| Paths.SegmentsAt | FluentApiGateway/src/main/kotlin/com/kandrac/matej/fluentapigateway/service/VideoStorageService.kt:34 | a string splits into the text before its first separator, when non-empty, followed by the names after it |
| Paths.SegmentsChars | FluentApiGateway/src/main/kotlin/com/kandrac/matej/fluentapigateway/service/VideoStorageService.kt:34 | every character of every name occurs in the string |
| Paths.SegmentsOfName | FluentApiGateway/src/main/kotlin/com/kandrac/matej/fluentapigateway/service/VideoStorageService.kt:80 | a separator-free non-empty string is a single name |
| Paths.SegmentsJoin | FluentApiGateway/src/main/kotlin/com/kandrac/matej/fluentapigateway/service/VideoStorageService.kt:80 | joining two strings with a separator concatenates their names |
| Paths.SegmentsJoinName | FluentApiGateway/src/main/kotlin/com/kandrac/matej/fluentapigateway/service/VideoStorageService.kt:80 | joining a separator-free string to another puts its single name, if any, in front |
| Paths.SegmentsJoinAt | FluentApiGateway/src/main/kotlin/com/kandrac/matej/fluentapigateway/service/VideoStorageService.kt:80 | the join property carries over from the text after the first separator to the whole string |
| Paths.JoinHead | FluentApiGateway/src/main/kotlin/com/kandrac/matej/fluentapigateway/service/VideoStorageService.kt:80 | the name before the first separator heads the join, followed by the names of the rest |
| Paths.FirstSeparatorOfJoin | FluentApiGateway/src/main/kotlin/com/kandrac/matej/fluentapigateway/service/VideoStorageService.kt:80 | appending a separator and text keeps the first separator and the text around it |
| Paths.NormFromAppend | FluentApiGateway/src/main/kotlin/com/kandrac/matej/fluentapigateway/service/VideoStorageService.kt:80 | normalising a concatenation continues from the normalised prefix |
| Paths.NormFromPlain | FluentApiGateway/src/main/kotlin/com/kandrac/matej/fluentapigateway/service/VideoStorageService.kt:80 | plain names pass through normalize unchanged |
| Paths.NormFromClean | FluentApiGateway/src/main/kotlin/com/kandrac/matej/fluentapigateway/service/VideoStorageService.kt:105 | normalize leaves no "." names, and no ".." names in an absolute path |
| Paths.DotsMakeRootAbnormal | FluentApiGateway/src/main/kotlin/com/kandrac/matej/fluentapigateway/service/VideoStorageService.kt:34 | a root holding a "." name, or a ".." name when absolute, is not normal |
| Errors.Exception.LocalizedMessage | FluentApiGateway/src/main/kotlin/com/kandrac/matej/fluentapigateway/utils/CustomExceptionHandler.kt:113-135 | each custom exception's message is its errorDetails |
| Errors.Handle | FluentApiGateway/src/main/kotlin/com/kandrac/matej/fluentapigateway/utils/CustomExceptionHandler.kt:20-100 | every status is 4xx or 5xx; a custom exception's body is its errorDetails unchanged; a missing handler's body is "No handler found " and its message |
| Errors.StatusClasses | FluentApiGateway/src/main/kotlin/com/kandrac/matej/fluentapigateway/utils/CustomExceptionHandler.kt:20-100 | which exceptions give 400, 401, 403, 404, 409 and 500, in both directions |
| Errors.FrameworkMessagesPassThrough | FluentApiGateway/src/main/kotlin/com/kandrac/matej/fluentapigateway/utils/CustomExceptionHandler.kt:68-90 | unreadable-message and missing-parameter errors report their own message |
| Errors.UnhandledBody | FluentApiGateway/src/main/kotlin/com/kandrac/matej/fluentapigateway/utils/CustomExceptionHandler.kt:92-100 | any other exception gives its message (or "null") followed by the fixed "not handled properly" suffix |
| Storage.IsVideoFile | FluentApiGateway/src/main/kotlin/com/kandrac/matej/fluentapigateway/service/VideoStorageService.kt:111-124 | an accepted content type starts with "video/" and some listed type |
| Storage.Validate | FluentApiGateway/src/main/kotlin/com/kandrac/matej/fluentapigateway/service/VideoStorageService.kt:42-48 | an upload passes exactly when it is non-empty and declares a video type; emptiness is reported first, with its own text |
| Storage.ExtensionOf | FluentApiGateway/src/main/kotlin/com/kandrac/matej/fluentapigateway/service/VideoStorageService.kt:75-76 | the extension holds no dot, and is "mp4" when the name (defaulting to "video") has none |
| Storage.UniqueFilename | FluentApiGateway/src/main/kotlin/com/kandrac/matej/fluentapigateway/service/VideoStorageService.kt:77 | the token, a dot, then the extension |
| Storage.InvalidPath | FluentApiGateway/src/main/kotlin/com/kandrac/matej/fluentapigateway/service/VideoStorageService.kt:80 | the exception a NUL in a name raises is an IllegalArgumentException with "Nul character not allowed: " and the name |
| Storage.Destination | FluentApiGateway/src/main/kotlin/com/kandrac/matej/fluentapigateway/service/VideoStorageService.kt:80 | the destination is absolute, and normal whenever the root or the name is absolute |
| Storage.CheckContainment | FluentApiGateway/src/main/kotlin/com/kandrac/matej/fluentapigateway/service/VideoStorageService.kt:80-84 | a name holding NUL throws InvalidPathException with its text; a passing destination is absolute and sits directly in the absolute root; any other failure is the outside-root error or a null parent |
| Storage.StoreFailure | FluentApiGateway/src/main/kotlin/com/kandrac/matej/fluentapigateway/service/VideoStorageService.kt:98-99 | an IOException becomes "Failed to store file. <msg>" and anything else passes unchanged |
| Storage.StoreOutcome | FluentApiGateway/src/main/kotlin/com/kandrac/matej/fluentapigateway/service/VideoStorageService.kt:74-101 | succeeds exactly when the check passes and neither the copy nor the save throws; a success writes the file and then appends exactly its record; a refusal throws the check's exception and changes nothing; a failed copy changes nothing and reports "Failed to store file."; a failed save reports its exception with the file written and no record; at most the one target file changes |
| Storage.DeleteOutcome | FluentApiGateway/src/main/kotlin/com/kandrac/matej/fluentapigateway/service/VideoStorageService.kt:103-109 | throws InvalidPathException exactly when the name holds NUL; true exactly when the name holds no NUL, no I/O failure occurs and the resolved file exists; only that file is removed |
| Storage.VideoStorageService.constructor | FluentApiGateway/src/main/kotlin/com/kandrac/matej/fluentapigateway/service/VideoStorageService.kt:32-40 | the root is the configured location parsed, not normalised |
| Storage.VideoStorageService.HandleUploadRequest | FluentApiGateway/src/main/kotlin/com/kandrac/matej/fluentapigateway/service/VideoStorageService.kt:42-65 | an invalid upload throws its BadRequest and touches nothing; a valid one has the store's effect and returns the record's id and name with the file's size |
| Storage.VideoStorageService.HandleDeleteRequest | FluentApiGateway/src/main/kotlin/com/kandrac/matej/fluentapigateway/service/VideoStorageService.kt:67-72 | throws InvalidPathException exactly when the name holds NUL and otherwise returns normally, even when nothing was deleted; the disk changes as the delete changes it |
| Storage.VideoStorageService.StoreVideo | FluentApiGateway/src/main/kotlin/com/kandrac/matej/fluentapigateway/service/VideoStorageService.kt:74-101 | result, disk and repository are those of StoreOutcome |
| Storage.VideoStorageService.DeleteVideo | FluentApiGateway/src/main/kotlin/com/kandrac/matej/fluentapigateway/service/VideoStorageService.kt:103-109 | result and disk are those of DeleteOutcome |
| StorageProperties.VideoTypeAcceptsParameters | FluentApiGateway/src/main/kotlin/com/kandrac/matej/fluentapigateway/service/VideoStorageService.kt:123 | an accepted type stays accepted with any suffix, such as codec parameters |
| StorageProperties.VideoTypesAccepted | FluentApiGateway/src/main/kotlin/com/kandrac/matej/fluentapigateway/service/VideoStorageService.kt:111-124 | "video/quicktime", "video/mp4; codecs=avc1" and "video/mpeg4-generic" are accepted |
| StorageProperties.VideoTypesRefused | FluentApiGateway/src/main/kotlin/com/kandrac/matej/fluentapigateway/service/VideoStorageService.kt:111-124 | "application/pdf", "Video/MP4" and "video/ogg" are refused |
| StorageProperties.ExtensionAfterLastDot | FluentApiGateway/src/main/kotlin/com/kandrac/matej/fluentapigateway/service/VideoStorageService.kt:75-77 | the extension is exactly the dot-free text after the last dot |
| StorageProperties.ExtensionKept | FluentApiGateway/src/main/kotlin/com/kandrac/matej/fluentapigateway/service/VideoStorageService.kt:75-77 | the stored name's extension is the original name's |
| StorageProperties.UuidIsSafe | FluentApiGateway/src/main/kotlin/com/kandrac/matej/fluentapigateway/service/VideoStorageService.kt:77 | UUID text is non-empty and holds no separator, no dot and no NUL |
| StorageProperties.SegmentsAroundSeparator | FluentApiGateway/src/main/kotlin/com/kandrac/matej/fluentapigateway/service/VideoStorageService.kt:80 | a first name followed by a separator splits off as its own name |
| StorageProperties.DotFreeNamesArePlain | FluentApiGateway/src/main/kotlin/com/kandrac/matej/fluentapigateway/service/VideoStorageService.kt:80 | a dot-free string has only plain names |
| StorageProperties.SingleNameShape | FluentApiGateway/src/main/kotlin/com/kandrac/matej/fluentapigateway/service/VideoStorageService.kt:77-80 | "<token>.<ext>" with no separator in ext is one plain relative name |
| StorageProperties.SplitNameShape | FluentApiGateway/src/main/kotlin/com/kandrac/matej/fluentapigateway/service/VideoStorageService.kt:77-80 | "<token>.<ext>" with a separator in ext is relative, with plain names |
| StorageProperties.UploadNameShape | FluentApiGateway/src/main/kotlin/com/kandrac/matej/fluentapigateway/service/VideoStorageService.kt:75-80 | every generated name is relative and made of plain names, and a single name when the extension has no separator |
| StorageProperties.PlainNameContainment | FluentApiGateway/src/main/kotlin/com/kandrac/matej/fluentapigateway/service/VideoStorageService.kt:80-84 | for a plain single name, the check passes exactly when the root is normal and the name holds no NUL, and then places the file directly under the absolute root |
| StorageProperties.NormalThenName | FluentApiGateway/src/main/kotlin/com/kandrac/matej/fluentapigateway/service/VideoStorageService.kt:80 | resolving one plain name against a root and normalising appends the name to the normalised root |
| StorageProperties.ToAbsoluteInjective | FluentApiGateway/src/main/kotlin/com/kandrac/matej/fluentapigateway/service/VideoStorageService.kt:80-82 | two paths of the same kind have the same absolute form exactly when they are equal |
| StorageProperties.NormalRootContainment | FluentApiGateway/src/main/kotlin/com/kandrac/matej/fluentapigateway/service/VideoStorageService.kt:80-84 | under a normal root, a relative name of plain names passes exactly when it is one name holding no NUL |
| StorageProperties.NormalRootDestination | FluentApiGateway/src/main/kotlin/com/kandrac/matej/fluentapigateway/service/VideoStorageService.kt:80 | under a normal root, a relative name of plain names lands at the absolute root followed by its names |
| StorageProperties.ToAbsoluteAppend | FluentApiGateway/src/main/kotlin/com/kandrac/matej/fluentapigateway/service/VideoStorageService.kt:80 | appending names commutes with taking the absolute path |
| StorageProperties.PlainUnderNormalRoot | FluentApiGateway/src/main/kotlin/com/kandrac/matej/fluentapigateway/service/VideoStorageService.kt:80 | plain names appended to a normal path keep it normal |
| StorageProperties.LastNameUnderRoot | FluentApiGateway/src/main/kotlin/com/kandrac/matej/fluentapigateway/service/VideoStorageService.kt:82 | an absolute path has parent base exactly when one name follows base |
| StorageProperties.UploadContainment | FluentApiGateway/src/main/kotlin/com/kandrac/matej/fluentapigateway/service/VideoStorageService.kt:74-84 | for generated names: under a normal root, pass iff one name without NUL; with a separator-free extension, pass iff the root is normal and the extension holds no NUL |
| StorageProperties.TrailingSeparatorPasses | FluentApiGateway/src/main/kotlin/com/kandrac/matej/fluentapigateway/service/VideoStorageService.kt:75-84 | an original name ending in a separator gives a stored name holding a separator, which passes exactly when the extension holds no NUL |
| StorageProperties.TrailingSeparatorName | FluentApiGateway/src/main/kotlin/com/kandrac/matej/fluentapigateway/service/VideoStorageService.kt:75-77 | an original name ending in a separator gives a stored name that holds a separator yet has one name |
| StorageProperties.TrailingSeparatorNul | FluentApiGateway/src/main/kotlin/com/kandrac/matej/fluentapigateway/service/VideoStorageService.kt:75-77 | a name built from an extension ending in a separator holds NUL exactly when the extension does |
| StorageProperties.NoSeparatorAround | FluentApiGateway/src/main/kotlin/com/kandrac/matej/fluentapigateway/service/VideoStorageService.kt:77 | the token, a dot and a separator-free extension join into a separator-free name |
| StorageProperties.UploadThenDeleteTwice | FluentApiGateway/src/main/kotlin/com/kandrac/matej/fluentapigateway/service/VideoStorageService.kt:74-109 | deleting a stored name removes exactly the written file and reports true, and a second delete reports false and changes nothing |
| StorageProperties.DeleteEscapesRoot | FluentApiGateway/src/main/kotlin/com/kandrac/matej/fluentapigateway/service/VideoStorageService.kt:103-106 | "../x" deletes the file x beside the root, while the store refuses the same name |
| StorageProperties.UpOneName | FluentApiGateway/src/main/kotlin/com/kandrac/matej/fluentapigateway/service/VideoStorageService.kt:105 | "../x" parses as the names ".." and x |
| StorageProperties.ParentThenName | FluentApiGateway/src/main/kotlin/com/kandrac/matej/fluentapigateway/service/VideoStorageService.kt:105 | in a normal absolute path, ".." and a plain name replace the last name |
| StorageProperties.UpThenName | FluentApiGateway/src/main/kotlin/com/kandrac/matej/fluentapigateway/service/VideoStorageService.kt:105 | after a last name other than "..", ".." drops that name and a plain name is appended |
| StorageProperties.PlainNamesAreNormal | FluentApiGateway/src/main/kotlin/com/kandrac/matej/fluentapigateway/service/VideoStorageService.kt:80 | an absolute path of plain names is normal |
| StorageProperties.EmptyCheckedFirst | FluentApiGateway/src/main/kotlin/com/kandrac/matej/fluentapigateway/service/VideoStorageService.kt:43-48 | an empty upload is refused with the select-a-file text even when its type is a video type, and the handler gives 400 |
| StorageProperties.UploadFailureStatus | FluentApiGateway/src/main/kotlin/com/kandrac/matej/fluentapigateway/service/VideoStorageService.kt:42-101 | validation failures reach the client as 400 and storage failures as 500 |
| StorageProperties.StoreErrorKinds | FluentApiGateway/src/main/kotlin/com/kandrac/matej/fluentapigateway/service/VideoStorageService.kt:74-101 | a failed store throws the gateway's server error, an IllegalArgumentException or the save's own exception |
| StorageProperties.NulExtensionRefused | FluentApiGateway/src/main/kotlin/com/kandrac/matej/fluentapigateway/service/VideoStorageService.kt:75-84 | an extension holding NUL makes the store throw InvalidPathException and leaves disk and repository unchanged |
| StorageProperties.NulExtensionInName | FluentApiGateway/src/main/kotlin/com/kandrac/matej/fluentapigateway/service/VideoStorageService.kt:77 | a NUL in the extension is a NUL in the stored name |
| StorageProperties.InvalidPathUnhandled | FluentApiGateway/src/main/kotlin/com/kandrac/matej/fluentapigateway/utils/CustomExceptionHandler.kt:92-100 | InvalidPathException has no handler of its own, so it is answered 500 with its text and the not-handled suffix |
| Controller.IsVideoFile | FluentApiGateway/src/main/kotlin/com/kandrac/matej/fluentapigateway/controller/VideoUploadController.kt:83-95 | accepts exactly the content types the service's check accepts |
| Controller.Failed | FluentApiGateway/src/main/kotlin/com/kandrac/matej/fluentapigateway/controller/VideoUploadController.kt:50-58 | an error response with the given status, success false and the given text |
| Controller.UploadVideo | FluentApiGateway/src/main/kotlin/com/kandrac/matej/fluentapigateway/controller/VideoUploadController.kt:19-59 | 200 exactly when valid and stored, with the stored name and the file's size; 400 exactly for a validation failure, with the service's text, or an IllegalArgumentException, with its message or "Invalid request"; any other exception gives "Failed to upload video: " and its message or "null"; error bodies have success false |
| Controller.DeleteVideo | FluentApiGateway/src/main/kotlin/com/kandrac/matej/fluentapigateway/controller/VideoUploadController.kt:61-81 | 200 with "Video deleted successfully" and the name for true, 404 with "Video not found" for false, 500 with "Failed to delete video: " and the message when deletion throws |
| Controller.ValidationPrecedesStorage | FluentApiGateway/src/main/kotlin/com/kandrac/matej/fluentapigateway/controller/VideoUploadController.kt:21-38 | a refused upload gets the same response whatever storage would do, with the service's status and text |
| Controller.StorageFailureMessages | FluentApiGateway/src/main/kotlin/com/kandrac/matej/fluentapigateway/controller/VideoUploadController.kt:50-58 | an IllegalArgumentException gives 400 with its message, or "Invalid request" without one; any other exception gives 500 with "Failed to upload video: " and its message or details |
| Controller.NulNameResponses | FluentApiGateway/src/main/kotlin/com/kandrac/matej/fluentapigateway/controller/VideoUploadController.kt:50-79 | a name holding NUL makes the upload answer 400 with the NUL text and the delete 500 with "Failed to delete video: " and the same text |
| AnalysisModels.LandmarkData.ToDict | video_analysis_ms/analysis_api/models.py:18-24 | exactly the keys x, y, z and visibility, holding the landmark's values |
| AnalysisModels.FrameAnalysis.ToDict | video_analysis_ms/analysis_api/models.py:34-41 | the timestamp, and the same landmark names, each mapped to its landmark's dictionary |
| AnalysisModels.LandmarkFields | video_analysis_ms/analysis_api/models.py:37-40 | the frame's landmark names, each mapped to its landmark's dictionary |
| AnalysisModels.DecodeLandmarks | video_analysis_ms/analysis_api/models.py:37-40 | decoding keeps the landmark names |
| AnalysisModels.LandmarkFromDict | video_analysis_ms/analysis_api/models.py:18-24 | decodes exactly when the four coordinates are numbers |
| AnalysisModels.FrameFromDict | video_analysis_ms/analysis_api/models.py:34-41 | a decoded frame has the dictionary's timestamp and landmark names |
| AnalysisModels.SerializeFrames | video_analysis_ms/analysis_api/models.py:61 | one dictionary per frame, in order |
| AnalysisModels.DecodeFrames | video_analysis_ms/analysis_api/models.py:61 | a decoded list has one frame per entry |
| AnalysisModels.LandmarkRoundTrip | video_analysis_ms/analysis_api/models.py:12-24 | decoding a landmark's dictionary gives the landmark back |
| AnalysisModels.LandmarkDictRoundTrip | video_analysis_ms/analysis_api/models.py:18-24 | a four-key dictionary that decodes is the dictionary of what it decodes to |
| AnalysisModels.FrameRoundTrip | video_analysis_ms/analysis_api/models.py:30-41 | decoding a frame's dictionary gives the frame back |
| AnalysisModels.LandmarksRoundTrip | video_analysis_ms/analysis_api/models.py:37-40 | every entry of the landmarks dictionary decodes, and decoding gives the landmarks back |
| AnalysisModels.FramesRoundTrip | video_analysis_ms/analysis_api/models.py:58-66 | decoding the data list gives the frames back, in order |
| AnalysisModels.SerializeAppend | video_analysis_ms/analysis_api/models.py:54-61 | serialising one more frame appends exactly that frame's dictionary |
| AnalysisModels.VideoAnalysis.constructor | video_analysis_ms/analysis_api/models.py:47-52 | a missing frame list starts empty, and both maxima start at 0.0 |
| AnalysisModels.VideoAnalysis.AddFrameAnalysis | video_analysis_ms/analysis_api/models.py:54-56 | the list grows by one, with the earlier frames unchanged and the new one last |
| AnalysisModels.VideoAnalysis.ToDict | video_analysis_ms/analysis_api/models.py:58-66 | only reads the object; total_frames is the list's length, and data decodes back to the frames in order |
| AnalysisService.WithoutDots | video_analysis_ms/analysis_api/services.py:98 | no "." names remain, and the list does not grow |
| AnalysisService.PurePath | video_analysis_ms/analysis_api/services.py:98 | absolute exactly when the text starts with a separator, with no "." names |
| AnalysisService.RecordedFilename | video_analysis_ms/analysis_api/services.py:86-96 | a filename exactly when the lookup found a record whose filename is present and non-empty |
| AnalysisService.Join | video_analysis_ms/analysis_api/services.py:98 | an absolute filename replaces the storage path; otherwise its names follow, and no "." names remain |
| AnalysisService.GetVideoPath | video_analysis_ms/analysis_api/services.py:74-108 | a path exactly when the record exists, its filename is non-empty and that file exists; none when the lookup raised |
| AnalysisService.NormFromIgnoresDots | video_analysis_ms/analysis_api/services.py:98-100 | dropping "." names does not change the normalised path |
| AnalysisService.PurePathReachesSameFile | video_analysis_ms/analysis_api/services.py:98-100 | the pathlib reading of a path reaches the same file as the java.nio reading |
| AnalysisService.FoundNameUnderStorage | video_analysis_ms/analysis_api/services.py:93-104 | a single-name filename is found directly in the storage directory |
| AnalysisService.FrameSkip | video_analysis_ms/analysis_api/services.py:238-240 | the interval is at least 1, and unchanged when already positive |
| AnalysisService.Samples | video_analysis_ms/analysis_api/services.py:260 | exactly the indices below n that are multiples of the interval, increasing |
| AnalysisService.StampFailure | video_analysis_ms/analysis_api/services.py:260-262 | no failure exactly when every sampled frame's timestamp is computed |
| AnalysisService.StampFailureIsFirst | video_analysis_ms/analysis_api/services.py:253-262 | the failure reported is that of the earliest sampled frame whose timestamp raises |
| AnalysisService.StampFailureSticks | video_analysis_ms/analysis_api/services.py:253-262 | reading more frames does not change a failure already met |
| AnalysisService.FirstFrameAlwaysStamped | video_analysis_ms/analysis_api/services.py:237-262 | frame 0 is always sampled, so a failing first timestamp (an fps of zero) is the failure whenever a frame is read |
| AnalysisService.Detected | video_analysis_ms/analysis_api/services.py:268 | a pose counts as found exactly when the detector returned at least one landmark |
| AnalysisService.Analysed | video_analysis_ms/analysis_api/services.py:260-283 | when no sampled timestamp fails, no more frames are kept than indices sampled, and every kept frame has a non-empty landmark set |
| AnalysisService.MaxIsUnique | video_analysis_ms/analysis_api/services.py:269-272 | the running maximum is determined by the kept frames |
| AnalysisService.MaxExtends | video_analysis_ms/analysis_api/services.py:269-272 | raising the maximum over a new frame keeps it the maximum of the longer list |
| AnalysisService.RaiseMax | video_analysis_ms/analysis_api/services.py:270-272 | the new maxima bound every landmark of the frame, and are the old value or one of the frame's coordinates |
| AnalysisService.KeepFrame | video_analysis_ms/analysis_api/services.py:268-278 | the frame is appended to the analysis, and the maxima stay the maxima of the longer kept list |
| AnalysisService.ReadFrame | video_analysis_ms/analysis_api/services.py:260-284 | one turn of the loop: a sampled frame's timestamp failure is reported; otherwise the kept list and maxima become those of one more frame |
| AnalysisService.SampleFrames | video_analysis_ms/analysis_api/services.py:248-288 | reports the first sampled frame whose timestamp raises; without one, every frame is read, the sampled indices examined, the kept frames appended, the count equal to the list length and both maxima correct |
| AnalysisService.ProcessVideo | video_analysis_ms/analysis_api/services.py:193-322 | failures for a missing file, a closed capture, a long video or a timestamp that raises, with nothing stored; otherwise the stored document has the kept frames, their count and the true maxima, and the result reports them or the insert's error |
| AnalysisService.KeptWithinSampled | video_analysis_ms/analysis_api/services.py:260-283 | when no sampled timestamp fails, no more frames are kept than sampled, and no more sampled than read |
| AnalysisService.SamplesBound | video_analysis_ms/analysis_api/services.py:253-260 | no more indices are sampled than frames were read |

## Left out

- Storage.StoreOutcome: a copy that fails part-way may leave a partly written file. The model treats a failed copy as writing nothing.
- Storage.StoreOutcome: only an `IOException` is modelled for the copy. Other exceptions from the input stream are not part of the model.
- Storage.VideoStorageService.constructor: a configured location holding NUL makes `Paths.get` throw at start-up; the model parses it as if it held none.
- Paths.Parse: strings the platform charset cannot encode make `java.nio` throw its own `InvalidPathException`; the model's strings are Unicode scalar values, and that failure is not modelled.
- Storage.VideoStorageService.constructor: `Files.createDirectories` and its "Could not initialize storage location" error are file-system I/O and are not modelled.
- The UUID text, the repository's id, `createdAt` and `LocalDateTime.now()` are inputs.
- The repository is an append-only record list. Spring Data's own behaviour is not modelled.
- Paths follow the Unix `java.nio` rules for names, `.` and `..`, and refuse NUL. Symbolic links and the operating system's own resolution are not modelled. A null parent raises an exception named `NullPointerException`; its text is not modelled.
- Controller.UploadVideo and Controller.DeleteVideo take the storage call's outcome as an input. The controller and the shown service disagree on signatures and response fields; each is modelled as written.
- The handler's error logging (CustomExceptionHandler.kt line 94) is a side effect with no effect on the response.
- `VideoAnalysisService.kt`, the security and Mongo configuration, and the application class are network I/O, concurrency or wiring.
- AnalysisModels.VideoAnalysis.constructor: Python keeps the caller's list object when it is non-empty. The model copies the value, so aliasing between caller and analysis is not captured. `datetime.utcnow()` is the input `createdAt`.
- Coordinates, durations and timestamps are reals or text. Float rounding, NaN, the fps arithmetic behind `duration` and `frame_skip`, and timestamp formatting are not modelled. A timestamp's text, or the exception computing it raises, is the input `stamp`. The duration and the unclamped interval are inputs.
- AnalysisService.ProcessVideo: the too-long failure carries both durations instead of the formatted message text.
- AnalysisService.ProcessVideo: exceptions raised by the detector, by the visualisation step or by `get_videos_collection` (which is called outside the `try`) are not modelled. Only an `insert_one` failure and a timestamp that raises are.
- `extract_landmarks`, `save_visualization`, the MediaPipe set-up, `cap.release()` and the progress printing are OpenCV, MediaPipe and file I/O. The detector is a function from frame to optional landmarks.
- AnalysisService.ProcessVideo: the capture is taken to stay open until its first failed read, so the loop ends exactly there.
- AnalysisService.GetVideoPath: a non-string `filename` value in the record is not modelled.
- The Django views, URLs, database connection and the HTTP smoke script are thin wrappers with no logic of their own.

