/**
 * The older `VideoUploadController`: it validates the upload itself and turns each outcome
 * of the storage call into an HTTP status and body, with no state of its own. The storage
 * service it calls is represented by the outcome of that call.
 */
module Controller {
  import opened Wrappers
  import opened Strings
  import opened Errors
  import Storage
  import Paths

  /** The success body `VideoUploadResponse` (this version has no id). */
  datatype VideoUploadResponse = VideoUploadResponse(
    success: bool, message: string, filename: Option<string>, fileSize: Option<nat>, uploadedAt: Option<string>)

  /** The error body `ErrorResponse`; `success` defaults to false and the controller never sets it. */
  datatype ErrorResponse = ErrorResponse(success: bool, message: string)

  datatype Body = Uploaded(response: VideoUploadResponse) | Error(error: ErrorResponse)

  datatype ResponseEntity = ResponseEntity(status: int, body: Body)

  const OK := 200

  const InvalidRequestMessage := "Invalid request"
  const UploadFailedPrefix := "Failed to upload video: "
  const DeletedMessage := "Video deleted successfully"
  const VideoNotFoundMessage := "Video not found"
  const DeleteFailedPrefix := "Failed to delete video: "

  const VideoTypes: seq<string> := [
    "video/mp4", "video/mpeg", "video/quicktime", "video/x-msvideo",
    "video/x-ms-wmv", "video/webm", "video/3gpp", "video/3gpp2"
  ]

  /** The controller's own copy of `isVideoFile`. */
  predicate IsVideoFile(contentType: string)
    ensures IsVideoFile(contentType) <==> Storage.IsVideoFile(contentType)
  {
    assert VideoTypes == Storage.VideoTypes;
    exists i :: 0 <= i < |VideoTypes| && VideoTypes[i] <= contentType
  }

  /** An error response: the status, and an `ErrorResponse` body with `success` false and the text. */
  function Failed(status: int, message: string): (r: ResponseEntity)
    ensures r.status == status && r.body.Error? && !r.body.error.success && r.body.error.message == message
  {
    ResponseEntity(status, Error(ErrorResponse(false, message)))
  }

  /**
   * `uploadVideo`: `stored` is what `storeVideo` returned (the stored name) or threw;
   * it is consulted only once both checks pass.
   */
  function UploadVideo(file: Storage.MultipartFile, stored: Result<string, Exception>, uploadedAt: string)
    : (r: ResponseEntity)
    ensures r.status in {OK, BAD_REQUEST, INTERNAL_SERVER_ERROR}
    ensures r.status == OK <==> Storage.Validate(file).Pass? && stored.Success?
    ensures r.status == OK ==>
      r.body == Uploaded(VideoUploadResponse(true, Storage.UploadedMessage, Some(stored.value), Some(file.Size()), Some(uploadedAt)))
    ensures r.status != OK ==> r.body.Error? && !r.body.error.success
    ensures r.status == BAD_REQUEST <==>
      Storage.Validate(file).Fail? || (stored.Failure? && stored.error.IllegalArgument?)
    // a validation failure reports the service's own text
    ensures Storage.Validate(file).Fail? ==> r.body.error.message == Storage.Validate(file).error.errorDetails
    // an illegal argument reports its own message, or "Invalid request" when it has none
    ensures Storage.Validate(file).Pass? && stored.Failure? && stored.error.IllegalArgument? ==>
      r.body.error.message == stored.error.message.GetOr(InvalidRequestMessage)
    // any other exception reports "Failed to upload video: " and its message, "null" when it has none
    ensures Storage.Validate(file).Pass? && stored.Failure? && !stored.error.IllegalArgument? ==>
      r.body.error.message == UploadFailedPrefix + Template(stored.error.LocalizedMessage())
  {
    if file.IsEmpty() then
      Failed(BAD_REQUEST, Storage.EmptyFileMessage)
    else if file.contentType.None? || !IsVideoFile(file.contentType.value) then
      Failed(BAD_REQUEST, Storage.NotVideoMessage)
    else
      match stored
      case Success(savedFilename) =>
        ResponseEntity(OK, Uploaded(VideoUploadResponse(
          true, Storage.UploadedMessage, Some(savedFilename), Some(file.Size()), Some(uploadedAt))))
      case Failure(e) =>
        if e.IllegalArgument? then Failed(BAD_REQUEST, e.message.GetOr(InvalidRequestMessage))
        else Failed(INTERNAL_SERVER_ERROR, UploadFailedPrefix + Template(e.LocalizedMessage()))
  }

  /**
   * `deleteVideo`: `deleted` is what the service's `deleteVideo` returned or threw.
   */
  function DeleteVideo(filename: string, deleted: Result<bool, Exception>): (r: ResponseEntity)
    ensures r.status == OK <==> deleted == Success(true)
    ensures r.status == NOT_FOUND <==> deleted == Success(false)
    ensures r.status == INTERNAL_SERVER_ERROR <==> deleted.Failure?
    ensures r.status == OK ==>
      r.body == Uploaded(VideoUploadResponse(true, DeletedMessage, Some(filename), None, None))
    ensures r.status != OK ==> r.body.Error? && !r.body.error.success
    ensures r.status == NOT_FOUND ==> r.body.error.message == VideoNotFoundMessage
    ensures deleted.Failure? ==>
      r.body.error.message == DeleteFailedPrefix + Template(deleted.error.LocalizedMessage())
  {
    match deleted
    case Success(true) =>
      ResponseEntity(OK, Uploaded(VideoUploadResponse(true, DeletedMessage, Some(filename), None, None)))
    case Success(false) =>
      Failed(NOT_FOUND, VideoNotFoundMessage)
    case Failure(e) =>
      Failed(INTERNAL_SERVER_ERROR, DeleteFailedPrefix + Template(e.LocalizedMessage()))
  }

  /**
   * A refused upload never reaches storage: the response is the same whatever storing
   * would have done, and it carries the text and status the newer service gives the same file.
   */
  lemma ValidationPrecedesStorage(file: Storage.MultipartFile, s1: Result<string, Exception>,
                                  s2: Result<string, Exception>, uploadedAt: string)
    requires Storage.Validate(file).Fail?
    ensures UploadVideo(file, s1, uploadedAt) == UploadVideo(file, s2, uploadedAt)
    ensures var e := Storage.Validate(file).error;
      UploadVideo(file, s1, uploadedAt) == Failed(Handle(e).status, Handle(e).body.errorDetails)
  {
  }

  /** Storage failures: an illegal argument is the client's fault, anything else the server's. */
  lemma StorageFailureMessages(file: Storage.MultipartFile, e: Exception, uploadedAt: string)
    requires Storage.Validate(file).Pass?
    ensures e.IllegalArgument? && e.message.None? ==>
      UploadVideo(file, Failure(e), uploadedAt) == Failed(BAD_REQUEST, InvalidRequestMessage)
    ensures e.IllegalArgument? && e.message.Some? ==>
      UploadVideo(file, Failure(e), uploadedAt) == Failed(BAD_REQUEST, e.message.value)
    ensures e.IsCustom() ==>
      UploadVideo(file, Failure(e), uploadedAt) == Failed(INTERNAL_SERVER_ERROR, UploadFailedPrefix + e.errorDetails)
    ensures (e.IO? || e.Other?) ==>
      UploadVideo(file, Failure(e), uploadedAt) == Failed(INTERNAL_SERVER_ERROR, UploadFailedPrefix + Template(e.message))
  {
  }

  /**
   * A stored or deleted name holding NUL: `resolve` throws `InvalidPathException`, an
   * `IllegalArgumentException`, so the upload is answered 400 with its message and the delete
   * 500 with "Failed to delete video: " and the same message.
   */
  lemma NulNameResponses(file: Storage.MultipartFile, name: string, uploadedAt: string)
    requires Storage.Validate(file).Pass?
    ensures UploadVideo(file, Failure(Storage.InvalidPath(name)), uploadedAt) ==
      Failed(BAD_REQUEST, Paths.NulReason + ": " + name)
    ensures DeleteVideo(name, Failure(Storage.InvalidPath(name))) ==
      Failed(INTERNAL_SERVER_ERROR, DeleteFailedPrefix + Paths.NulReason + ": " + name)
  {
  }
}
