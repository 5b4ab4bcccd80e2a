/**
 * `VideoStorageService`: upload validation, the stored-name derivation, the
 * path-containment check, the write-then-save store, and best-effort delete.
 *
 * The disk is a map from the operating system's view of a path (normalised and
 * absolute) to bytes; the Mongo repository is the sequence of records saved so far.
 */
module Storage {
  import opened Wrappers
  import opened Strings
  import opened Paths
  import opened Errors

  newtype byte = x: int | 0 <= x < 256

  /** The uploaded multipart part: its bytes, declared content type and original name. */
  datatype MultipartFile = MultipartFile(content: seq<byte>, contentType: Option<string>, originalFilename: Option<string>)
  {
    predicate IsEmpty() { |content| == 0 }
    function Size(): nat { |content| }
  }

  /** The persisted record `StoredVideo`; the repository assigns `id` when it saves it. */
  datatype StoredVideo = StoredVideo(id: Option<string>, filename: Option<string>, createdAt: string)

  /** The upload response this version of the service builds; it carries the record's id. */
  datatype UploadResponse = UploadResponse(
    success: bool, message: string, id: Option<string>, filename: Option<string>, fileSize: nat, uploadedAt: string)

  /**
   * What the environment decides during one store: the random UUID text, whether the copy
   * throws an `IOException` (and with which possibly-null message), whether `repository.save`
   * throws, the id the repository assigns, and the record's creation time.
   */
  datatype StoreEnv = StoreEnv(
    token: string, copyError: Option<Option<string>>, saveError: Option<Exception>, newId: string, createdAt: string)

  const EmptyFileMessage := "Please select a video file to upload"
  const NotVideoMessage := "File must be a video (mp4, mov, avi, etc.)"
  const OutsideRootMessage := "Cannot store file outside current directory"
  const UploadedMessage := "Video uploaded successfully"
  const FileNotFoundMessage := "File not found"
  const StoreFailedPrefix := "Failed to store file. "

  /** Calling `equals` on the null parent of "/" throws; nothing in the service catches it. */
  const NullPointer := Other("NullPointerException", None)

  /**
   * The `InvalidPathException` that parsing a path string holding NUL throws. It is an
   * `IllegalArgumentException`, so the service's `IOException` handlers let it through.
   */
  function InvalidPath(input: string): (e: Exception)
    ensures e.IllegalArgument? && e.LocalizedMessage() == Some(NulReason + ": " + input)
  {
    IllegalArgument(Some(NulReason + ": " + input))
  }

  const VideoTypes: seq<string> := [
    "video/mp4", "video/mpeg", "video/quicktime", "video/x-msvideo",
    "video/x-ms-wmv", "video/webm", "video/3gpp", "video/3gpp2"
  ]

  /** `isVideoFile`: some listed MIME type is a prefix of the declared content type. */
  predicate IsVideoFile(contentType: string)
    ensures IsVideoFile(contentType) ==> |contentType| >= 9 && contentType[..6] == "video/"
  {
    exists i :: 0 <= i < |VideoTypes| && VideoTypes[i] <= contentType
  }

  /** The two checks `handleUploadRequest` makes before touching storage, in their order. */
  function Validate(file: MultipartFile): (r: Outcome<Exception>)
    ensures r.Pass? <==> !file.IsEmpty() && file.contentType.Some? && IsVideoFile(file.contentType.value)
    ensures file.IsEmpty() ==> r == Fail(BadRequest(EmptyFileMessage))
    ensures !file.IsEmpty() && r.Fail? ==> r == Fail(BadRequest(NotVideoMessage))
  {
    if file.IsEmpty() then Fail(BadRequest(EmptyFileMessage))
    else if file.contentType.None? || !IsVideoFile(file.contentType.value) then Fail(BadRequest(NotVideoMessage))
    else Pass
  }

  /** The extension kept from the original name ("video" when there is none). */
  function ExtensionOf(originalFilename: Option<string>): (ext: string)
    ensures '.' !in ext
    ensures '.' !in originalFilename.GetOr("video") ==> ext == "mp4"
    ensures originalFilename.None? ==> ext == "mp4"
  {
    SubstringAfterLast(originalFilename.GetOr("video"), '.', "mp4")
  }

  /** The on-disk name: the random token, a dot, and the kept extension. */
  function UniqueFilename(token: string, originalFilename: Option<string>): (name: string)
    ensures |name| == |token| + 1 + |ExtensionOf(originalFilename)|
    ensures name[..|token|] == token && name[|token|] == '.'
    ensures name[|token| + 1..] == ExtensionOf(originalFilename)
  {
    token + "." + ExtensionOf(originalFilename)
  }

  /** The text of `UUID.randomUUID().toString()`: 8-4-4-4-12 lower-case hex digits. */
  predicate IsUuid(token: string) {
    |token| == 36 &&
    forall i :: 0 <= i < 36 ==>
      if i == 8 || i == 13 || i == 18 || i == 23 then token[i] == '-' else token[i] in "0123456789abcdef"
  }

  /**
   * `rootLocation.resolve(name).normalize().toAbsolutePath()`: always absolute, and already
   * normal unless the working directory had to be prepended.
   */
  function Destination(root: Path, name: string, cwd: seq<string>): (d: Path)
    ensures d.absolute
    ensures root.absolute || Parse(name).absolute ==> IsNormal(d)
  {
    NormalizeIdempotent(Resolve(root, Parse(name)));
    ToAbsolute(Normalize(Resolve(root, Parse(name))), cwd)
  }

  /** The file the operating system reaches for a path: relative paths start at `cwd`, ".." is resolved. */
  function FileKey(p: Path, cwd: seq<string>): Path {
    Normalize(ToAbsolute(p, cwd))
  }

  /** The file that both storing and deleting under `name` address. */
  function Location(root: Path, name: string, cwd: seq<string>): Path {
    FileKey(Normalize(Resolve(root, Parse(name))), cwd)
  }

  /**
   * The containment check of `storeVideo`: the destination's parent must equal the root
   * made absolute. A name holding NUL cannot be resolved, and a destination of "/" has no
   * parent, so the comparison throws.
   */
  function CheckContainment(root: Path, name: string, cwd: seq<string>): (r: Result<Path, Exception>)
    ensures '\0' in name ==> r == Failure(InvalidPath(name))
    ensures r.Success? ==>
      '\0' !in name &&
      r.value == Destination(root, name, cwd) && r.value.absolute && |r.value.segments| > 0 &&
      r.value.segments[..|r.value.segments| - 1] == ToAbsolute(root, cwd).segments
    ensures r.Failure? ==>
      r.error == InternalServerError(OutsideRootMessage) || r.error == NullPointer || r.error == InvalidPath(name)
  {
    if '\0' in name then Failure(InvalidPath(name)) else
    var destination := Destination(root, name, cwd);
    match Parent(destination)
    case None => Failure(NullPointer)
    case Some(parent) =>
      if parent == ToAbsolute(root, cwd) then Success(destination)
      else Failure(InternalServerError(OutsideRootMessage))
  }

  /** The `IOException` handler of `storeVideo`: an I/O failure is re-thrown as a storage error, anything else passes. */
  function StoreFailure(e: Exception): (r: Exception)
    ensures e.IO? ==> r == InternalServerError(StoreFailedPrefix + Template(e.message))
    ensures !e.IO? ==> r == e
  {
    if e.IO? then InternalServerError(StoreFailedPrefix + Template(e.message)) else e
  }

  /**
   * The effect of `storeVideo` on (result, disk, repository): check, then copy, then save.
   */
  function StoreOutcome(root: Path, cwd: seq<string>, files: map<Path, seq<byte>>, records: seq<StoredVideo>,
                        file: MultipartFile, env: StoreEnv): (o: (Result<StoredVideo, Exception>, map<Path, seq<byte>>, seq<StoredVideo>))
    // the store succeeds exactly when the check passes and neither the copy nor the save throws
    ensures o.0.Success? <==>
      CheckContainment(root, UniqueFilename(env.token, file.originalFilename), cwd).Success? &&
      env.copyError.None? && env.saveError.None?
    // a success saved exactly one record, named after the generated file, and wrote that file
    ensures o.0.Success? ==>
      var name := UniqueFilename(env.token, file.originalFilename);
      o.0.value == StoredVideo(Some(env.newId), Some(name), env.createdAt) &&
      o.1 == files[Location(root, name, cwd) := file.content] &&
      o.2 == records + [o.0.value]
    // a rejected destination or a failed copy stores nothing at all
    ensures CheckContainment(root, UniqueFilename(env.token, file.originalFilename), cwd).Failure? || env.copyError.Some? ==>
      o.0.Failure? && o.1 == files && o.2 == records
    // a refused destination throws the check's own exception
    ensures var check := CheckContainment(root, UniqueFilename(env.token, file.originalFilename), cwd);
      check.Failure? ==> o.0 == Failure(check.error)
    // a failed copy is reported as a storage error carrying the I/O message
    ensures CheckContainment(root, UniqueFilename(env.token, file.originalFilename), cwd).Success? && env.copyError.Some? ==>
      o.0 == Failure(InternalServerError(StoreFailedPrefix + Template(env.copyError.value)))
    // a failed save leaves the written file in place and reports the save's exception
    ensures var name := UniqueFilename(env.token, file.originalFilename);
      CheckContainment(root, name, cwd).Success? && env.copyError.None? && env.saveError.Some? ==>
        o.0 == Failure(StoreFailure(env.saveError.value)) &&
        o.1 == files[Location(root, name, cwd) := file.content] && o.2 == records
    // the record is saved only after its file has been written
    ensures |o.2| > |records| ==>
      var key := Location(root, UniqueFilename(env.token, file.originalFilename), cwd);
      key in o.1 && o.1[key] == file.content
    // a failure saves no record; at most the one target file changes
    ensures o.0.Failure? ==> o.2 == records
    ensures o.1 == files || o.1 == files[Location(root, UniqueFilename(env.token, file.originalFilename), cwd) := file.content]
  {
    var name := UniqueFilename(env.token, file.originalFilename);
    match CheckContainment(root, name, cwd)
    case Failure(e) => (Failure(e), files, records)
    case Success(destination) =>
      if env.copyError.Some? then
        (Failure(StoreFailure(IO(env.copyError.value))), files, records)
      else
        var written := files[FileKey(destination, cwd) := file.content];
        if env.saveError.Some? then (Failure(StoreFailure(env.saveError.value)), written, records)
        else
          var saved := StoredVideo(Some(env.newId), Some(name), env.createdAt);
          (Success(saved), written, records + [saved])
  }

  /**
   * The effect of `deleteVideo` on (result, disk): `Files.deleteIfExists` at the resolved
   * path. A name holding NUL throws before anything is touched; an I/O failure gives false.
   */
  function DeleteOutcome(root: Path, cwd: seq<string>, files: map<Path, seq<byte>>, filename: string, ioFailure: bool)
    : (o: (Result<bool, Exception>, map<Path, seq<byte>>))
    ensures o.0.Failure? <==> '\0' in filename
    ensures o.0.Failure? ==> o.0.error == InvalidPath(filename)
    ensures o.0 == Success(true) <==> '\0' !in filename && !ioFailure && Location(root, filename, cwd) in files
    ensures o.1 == if o.0 == Success(true) then files - {Location(root, filename, cwd)} else files
  {
    var key := Location(root, filename, cwd);
    if '\0' in filename then (Failure(InvalidPath(filename)), files)
    else if ioFailure then (Success(false), files)
    else if key in files then (Success(true), files - {key})
    else (Success(false), files)
  }

  class VideoStorageService {
    /** The process's working directory, against which relative paths are made absolute. */
    const workingDir: seq<string>
    var rootLocation: Path
    var files: map<Path, seq<byte>>
    var records: seq<StoredVideo>

    /** Wiring plus `init`: the root is the configured location, parsed and nothing more. */
    constructor (storageLocation: string, workingDir: seq<string>, files: map<Path, seq<byte>>, records: seq<StoredVideo>)
      ensures this.workingDir == workingDir && rootLocation == Parse(storageLocation)
      ensures this.files == files && this.records == records
    {
      this.workingDir := workingDir;
      this.files := files;
      this.records := records;
      rootLocation := Parse(storageLocation);
    }

    method HandleUploadRequest(file: MultipartFile, env: StoreEnv, uploadedAt: string)
      returns (r: Result<UploadResponse, Exception>)
      modifies this`files, this`records
      ensures Validate(file).Fail? ==>
        r == Failure(Validate(file).error) && files == old(files) && records == old(records)
      ensures Validate(file).Pass? ==>
        var o := StoreOutcome(rootLocation, workingDir, old(files), old(records), file, env);
        files == o.1 && records == o.2 &&
        r == match o.0
             case Failure(e) => Failure(e)
             case Success(v) => Success(UploadResponse(true, UploadedMessage, v.id, v.filename, file.Size(), uploadedAt))
    {
      if file.IsEmpty() {
        return Failure(BadRequest(EmptyFileMessage));
      }
      var contentType := file.contentType;
      if contentType.None? || !IsVideoFile(contentType.value) {
        return Failure(BadRequest(NotVideoMessage));
      }
      var saved := StoreVideo(file, env);
      if saved.Failure? {
        return Failure(saved.error);
      }
      r := Success(UploadResponse(true, UploadedMessage, saved.value.id, saved.value.filename, file.Size(), uploadedAt));
    }

    /**
     * Returns normally whether or not a file was removed: the `NotFound` it builds is never
     * thrown. Only the invalid-path exception of a name holding NUL escapes.
     */
    method HandleDeleteRequest(filename: string, ioFailure: bool) returns (r: Outcome<Exception>)
      modifies this`files
      ensures r == if '\0' in filename then Fail(InvalidPath(filename)) else Pass
      ensures files == DeleteOutcome(rootLocation, workingDir, old(files), filename, ioFailure).1
    {
      var deleted := DeleteVideo(filename, ioFailure);
      if deleted.Failure? {
        return Fail(deleted.error);
      }
      if !deleted.value {
        var notThrown := NotFound(FileNotFoundMessage);
      }
      r := Pass;
    }

    method StoreVideo(file: MultipartFile, env: StoreEnv) returns (r: Result<StoredVideo, Exception>)
      modifies this`files, this`records
      ensures (r, files, records) == StoreOutcome(rootLocation, workingDir, old(files), old(records), file, env)
    {
      var originalFilename := file.originalFilename.GetOr("video");
      var fileExtension := SubstringAfterLast(originalFilename, '.', "mp4");
      var uniqueFilename := env.token + "." + fileExtension;
      if '\0' in uniqueFilename {
        return Failure(InvalidPath(uniqueFilename));
      }
      var destinationFile := ToAbsolute(Normalize(Resolve(rootLocation, Parse(uniqueFilename))), workingDir);
      var parent := Parent(destinationFile);
      if parent.None? {
        return Failure(NullPointer);
      }
      if parent.value != ToAbsolute(rootLocation, workingDir) {
        return Failure(InternalServerError(OutsideRootMessage));
      }
      if env.copyError.Some? {
        return Failure(StoreFailure(IO(env.copyError.value)));
      }
      files := files[FileKey(destinationFile, workingDir) := file.content];
      if env.saveError.Some? {
        return Failure(StoreFailure(env.saveError.value));
      }
      var video := StoredVideo(None, Some(uniqueFilename), env.createdAt);
      var savedVideo := video.(id := Some(env.newId));
      records := records + [savedVideo];
      r := Success(savedVideo);
    }

    method DeleteVideo(filename: string, ioFailure: bool) returns (deleted: Result<bool, Exception>)
      modifies this`files
      ensures (deleted, files) == DeleteOutcome(rootLocation, workingDir, old(files), filename, ioFailure)
    {
      if '\0' in filename {
        return Failure(InvalidPath(filename));
      }
      var filePath := Normalize(Resolve(rootLocation, Parse(filename)));
      if ioFailure {
        return Success(false);
      }
      var key := FileKey(filePath, workingDir);
      deleted := Success(key in files);
      if key in files {
        files := files - {key};
      }
    }
  }
}
