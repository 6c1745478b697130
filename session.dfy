/** The upload session as the data manager `dm` keeps it (guillotina_gcloudstorage/storage.py):
    `start` opens a resumable upload, `finish` promotes it to the stored object, and `copy`
    seeds another data manager with a server-side copy. Every request is given as its
    answer; `names(i)` is the name the file-name generator gives in attempt i. */
module Session {
  import opened Common
  import opened Text
  import Retry
  import Deletion
  import Files

  /** The fields `start`, `finish` and `copy` read and write through `dm.get`/`dm.update`. */
  class UploadDataManager {
    var currentUpload: Option<int>
    var resumableUri: Option<string>
    var uploadFileId: Option<string>
    var uri: Option<string>
    var contentType: string
    var size: Option<nat>
    var filename: Option<string>

    /** A data manager for a body of the given type and (possibly unknown) size. */
    constructor(contentType: string, size: Option<nat>, filename: Option<string>)
      ensures this.contentType == contentType && this.size == size && this.filename == filename
      ensures currentUpload.None? && resumableUri.None? && uploadFileId.None? && uri.None?
    {
      this.contentType := contentType;
      this.size := size;
      this.filename := filename;
      currentUpload := None;
      resumableUri := None;
      uploadFileId := None;
      uri := None;
    }

    /** An upload in progress: `start` sets its id, its resumable uri and a zero offset. */
    predicate Started()
      reads this
    {
      uploadFileId.Some? && resumableUri.Some? && currentUpload == Some(0)
    }

    /** `dm.update(**values)` with the values `copy` hands to `finish(values=...)`: the
        destination now describes the copied object. */
    method Record(values: CopiedObject)
      modifies this
      ensures contentType == values.contentType && size == Some(values.size)
      ensures uri == Some(values.uri) && filename == Some(values.filename)
      ensures currentUpload == old(currentUpload) && resumableUri == old(resumableUri)
      ensures uploadFileId == old(uploadFileId)
    {
      contentType := values.contentType;
      size := Some(values.size);
      uri := Some(values.uri);
      filename := Some(values.filename);
    }
  }

  // ---------------------------------------------------------------------------
  // start
  // ---------------------------------------------------------------------------

  type Headers = map<string, string>

  /** The answer to the POST that opens a resumable upload. */
  datatype PostResponse = PostResponse(status: nat, text: string, location: Option<string>)

  /** `str(dm.size)`: the decimal size, or `None` while it is unknown. */
  function SizeText(size: Option<nat>): (t: string)
    ensures size.None? ==> t == "None"
    ensures size.Some? ==> ParseInt(t) == size
    ensures ParseInt(t).Some? ==> size == ParseInt(t)
  {
    if size.Some? then ParseNatToString(size.value); NatToString(size.value)
    else assert !IsDigit('N'); "None"
  }

  /** The headers of the POST, besides the authorization, for a metadata body of
      `metadataLength` characters. */
  function StartHeaders(contentType: string, size: Option<nat>, metadataLength: nat): (h: Headers)
    ensures h.Keys == {"X-Upload-Content-Type", "X-Upload-Content-Length", "Content-Type", "Content-Length"}
    ensures h["X-Upload-Content-Type"] == contentType
    ensures size.None? <==> h["X-Upload-Content-Length"] == "None"
    ensures size.Some? ==> ParseInt(h["X-Upload-Content-Length"]) == size
    ensures h["Content-Type"] == "application/json; charset=UTF-8"
    ensures ParseInt(h["Content-Length"]) == Some(metadataLength)
  {
    ParseNatToString(metadataLength);
    map["X-Upload-Content-Type" := contentType,
        "X-Upload-Content-Length" := SizeText(size),
        "Content-Type" := "application/json; charset=UTF-8",
        "Content-Length" := NatToString(metadataLength)]
  }

  /** What one attempt of `start` has to set: the new upload id and the resumable uri. */
  datatype Opened = Opened(uploadFileId: string, resumableUri: string)

  /** One attempt of `start`. An upload id left in `dm` is deleted first (with that call's
      own retries) and a failure of that deletion ends the attempt; then the POST must
      answer 200 and carry a Location. */
  function StartAttempt(priorId: Option<string>, deleteReplies: nat -> Result<Deletion.DeleteResponse>,
                        name: string, headers: Headers, post: Headers -> Result<PostResponse>): (r: Result<Opened>)
    ensures priorId.Some? && Deletion.DeleteUploadCall(priorId, deleteReplies).0.Failure? ==>
      r == Failure(Deletion.DeleteUploadCall(priorId, deleteReplies).0.error)
    ensures r.Success? <==>
      (priorId.None? || Deletion.DeleteUploadCall(priorId, deleteReplies).0.Success?) &&
      post(headers).Success? && post(headers).value.status == 200 && post(headers).value.location.Some?
    ensures r.Success? ==> r.value == Opened(name, post(headers).value.location.value)
    ensures (priorId.None? || Deletion.DeleteUploadCall(priorId, deleteReplies).0.Success?) && post(headers).Success? ==>
      var resp := post(headers).value;
      (resp.status != 200 ==> r == Failure(GoogleCloud(IntToString(resp.status) + ": " + resp.text))) &&
      (resp.status == 200 && resp.location.None? ==> r == Failure(KeyError("Location")))
  {
    var cleared := if priorId.Some? then Deletion.DeleteUploadCall(priorId, deleteReplies).0 else Success(());
    match cleared
    case Failure(e) => Failure(e)
    case Success(_) =>
      match post(headers)
      case Failure(e) => Failure(e)
      case Success(resp) =>
        if resp.status != 200 then Failure(GoogleCloud(IntToString(resp.status) + ": " + resp.text))
        else if resp.location.None? then Failure(KeyError("Location"))
        else Success(Opened(name, resp.location.value))
  }

  /** The attempts of `start`; attempt i gets its own deletion answers, name and POST. */
  function StartAttempts(priorId: Option<string>, headers: Headers,
                         deletes: nat -> nat -> Result<Deletion.DeleteResponse>,
                         names: nat -> string, posts: nat -> Headers -> Result<PostResponse>): nat -> Result<Opened> {
    (i: nat) => StartAttempt(priorId, deletes(i), names(i), headers, posts(i))
  }

  /** `start` with its decorator's ten attempts. */
  function StartCall(priorId: Option<string>, headers: Headers,
                     deletes: nat -> nat -> Result<Deletion.DeleteResponse>,
                     names: nat -> string, posts: nat -> Headers -> Result<PostResponse>): (Result<Opened>, nat) {
    Retry.Backoff(Retry.DefaultTries, StartAttempts(priorId, headers, deletes, names, posts))
  }

  /** A session opened at the first attempt takes that attempt's name and Location; a
      session the POST refuses every time is given up after ten attempts. */
  lemma StartVerdicts(priorId: Option<string>, headers: Headers,
                      deletes: nat -> nat -> Result<Deletion.DeleteResponse>,
                      names: nat -> string, posts: nat -> Headers -> Result<PostResponse>)
    ensures (priorId.None? || Deletion.DeleteUploadCall(priorId, deletes(0)).0.Success?) &&
            posts(0)(headers).Success? && posts(0)(headers).value.status == 200 &&
            posts(0)(headers).value.location.Some? ==>
      StartCall(priorId, headers, deletes, names, posts) ==
        (Success(Opened(names(0), posts(0)(headers).value.location.value)), 1)
    ensures priorId.None? && (forall i :: 0 <= i < Retry.DefaultTries ==>
              posts(i)(headers).Success? && posts(i)(headers).value.status != 200) ==>
      StartCall(priorId, headers, deletes, names, posts).1 == Retry.DefaultTries &&
      StartCall(priorId, headers, deletes, names, posts).0.Failure? &&
      StartCall(priorId, headers, deletes, names, posts).0.error.GoogleCloud?
  {
    var attempt := StartAttempts(priorId, headers, deletes, names, posts);
    assert attempt(0) == StartAttempt(priorId, deletes(0), names(0), headers, posts(0));
    if attempt(0).Success? {
      Retry.BackoffSettlesAtFirst(Retry.DefaultTries, attempt, 0);
    }
    if priorId.None? && (forall i :: 0 <= i < Retry.DefaultTries ==>
          posts(i)(headers).Success? && posts(i)(headers).value.status != 200) {
      forall j | 0 <= j < Retry.DefaultTries
        ensures Retry.Retries(attempt(j))
      {
        assert attempt(j) == StartAttempt(priorId, deletes(j), names(j), headers, posts(j));
      }
      Retry.BackoffExhausts(Retry.DefaultTries, attempt);
      var last := Retry.DefaultTries - 1;
      assert attempt(last) == StartAttempt(priorId, deletes(last), names(last), headers, posts(last));
    }
  }

  /** `start(dm)`: on success the session fields are set together and the offset is zero;
      on failure `dm` is left as it was. */
  method Start(dm: UploadDataManager, metadataLength: nat,
               deletes: nat -> nat -> Result<Deletion.DeleteResponse>,
               names: nat -> string, posts: nat -> Headers -> Result<PostResponse>) returns (r: Result<()>)
    modifies dm
    ensures var call := StartCall(old(dm.uploadFileId), StartHeaders(old(dm.contentType), old(dm.size), metadataLength),
                                  deletes, names, posts).0;
      && (r.Success? <==> call.Success?)
      && (call.Failure? ==> r == Failure(call.error))
      && (call.Success? ==> dm.uploadFileId == Some(call.value.uploadFileId) &&
                            dm.resumableUri == Some(call.value.resumableUri) &&
                            dm.currentUpload == Some(0))
      && (call.Failure? ==> dm.uploadFileId == old(dm.uploadFileId) &&
                            dm.resumableUri == old(dm.resumableUri) &&
                            dm.currentUpload == old(dm.currentUpload))
    ensures r.Success? ==> dm.Started()
    ensures dm.uri == old(dm.uri) && dm.contentType == old(dm.contentType)
    ensures dm.size == old(dm.size) && dm.filename == old(dm.filename)
  {
    var headers := StartHeaders(dm.contentType, dm.size, metadataLength);
    var session, tries := Retry.Run(Retry.DefaultTries, StartAttempts(dm.uploadFileId, headers, deletes, names, posts));
    if session.Failure? {
      return Failure(session.error);
    }
    dm.currentUpload := Some(0);
    dm.resumableUri := Some(session.value.resumableUri);
    dm.uploadFileId := Some(session.value.uploadFileId);
    r := Success(());
  }

  // ---------------------------------------------------------------------------
  // finish
  // ---------------------------------------------------------------------------

  /** How the clean-up of the previously stored object ends, as `finish` sees it: only an
      uploaded file the clean-up policy lets go is deleted, and a GoogleCloudException
      from that deletion is swallowed; any other fault is raised. */
  function Cleanup(file: Files.FieldValue, shouldClean: bool, deleteReplies: nat -> Result<Deletion.DeleteResponse>): (r: Result<()>)
    ensures !(Files.IsUploadedFile(file) && shouldClean) ==> r == Success(())
    ensures Files.IsUploadedFile(file) && shouldClean ==>
      var d := Deletion.DeleteUploadCall(file.uri, deleteReplies).0;
      (r.Success? <==> d.Success? || d.error.GoogleCloud?) && (r.Failure? ==> r == d)
  {
    if Files.IsUploadedFile(file) && shouldClean then
      match Deletion.DeleteUploadCall(file.uri, deleteReplies).0
      case Success(_) => Success(())
      case Failure(e) => if e.GoogleCloud? then Success(()) else Failure(e)
    else Success(())
  }

  /** The clean-up never fails on a stored object whose deletion keeps being refused with
      an error status, nor on one the store has already lost. */
  lemma CleanupSwallowsStatusErrors(u: string, filename: Option<string>, deleteReplies: nat -> Result<Deletion.DeleteResponse>)
    requires forall i :: 0 <= i < Retry.DefaultTries ==>
      deleteReplies(i).Success? && deleteReplies(i).value.status !in {200, 204, 403, 404}
    ensures Cleanup(Files.File(Files.CloudFile, Some(u), filename), true, deleteReplies) == Success(())
  {
    Deletion.DeleteUploadFailures(Some(u), deleteReplies);
  }

  /** `finish(dm)`: after the clean-up, the upload id becomes the stored uri and the upload
      id is cleared; a fault the clean-up raises leaves `dm` as it was. */
  method Finish(dm: UploadDataManager, file: Files.FieldValue, shouldClean: bool,
                deleteReplies: nat -> Result<Deletion.DeleteResponse>) returns (r: Result<()>)
    modifies dm
    ensures r == Cleanup(file, shouldClean, deleteReplies)
    ensures r.Success? ==> dm.uri == old(dm.uploadFileId) && dm.uploadFileId.None?
    ensures r.Failure? ==> dm.uri == old(dm.uri) && dm.uploadFileId == old(dm.uploadFileId)
    ensures dm.currentUpload == old(dm.currentUpload) && dm.resumableUri == old(dm.resumableUri)
    ensures dm.contentType == old(dm.contentType) && dm.size == old(dm.size) && dm.filename == old(dm.filename)
  {
    if Files.IsUploadedFile(file) && shouldClean {
      var deleted, tries := Retry.Run(Retry.DefaultTries, (i: nat) => Deletion.DeleteUploadAttempt(file.uri, deleteReplies(i)));
      if deleted.Failure? && !deleted.error.GoogleCloud? {
        return Failure(deleted.error);
      }
    }
    dm.uri := dm.uploadFileId;
    dm.uploadFileId := None;
    r := Success(());
  }

  // ---------------------------------------------------------------------------
  // copy
  // ---------------------------------------------------------------------------

  /** The fields of the JSON body of a copy answer that `copy` reads. */
  datatype CopyBody = CopyBody(name: Option<string>, contentType: Option<string>, size: Option<string>)

  /** The answer to the copy request; `body` is None when it is not JSON. */
  datatype CopyResponse = CopyResponse(status: nat, text: string, body: Option<CopyBody>)

  /** The values `copy` hands to the destination's data manager. */
  datatype CopiedObject = CopiedObject(contentType: string, size: nat, uri: string, filename: string)

  /** `file.filename or "unknown"` */
  function FilenameOrUnknown(filename: Option<string>): (f: string)
    ensures f != ""
    ensures filename.Some? && filename.value != "" ==> f == filename.value
    ensures !(filename.Some? && filename.value != "") ==> f == "unknown"
  {
    if filename.Some? && filename.value != "" then filename.value else "unknown"
  }

  /** One attempt of `copy` to the name `newUri`. Any status but 404 is read as the copied
      object's JSON description, whose name must be the new one. */
  function CopyAttempt(file: Files.FieldValue, newUri: string, reply: Result<CopyResponse>): (r: Result<CopiedObject>)
    ensures !Files.IsUploadedFile(file) ==> r == Failure(NotFound("To copy a uri must be set on the object"))
    ensures r.Success? <==>
      Files.IsUploadedFile(file) && reply.Success? && reply.value.status != 404 &&
      reply.value.body.Some? && reply.value.body.value.name == Some(newUri) &&
      reply.value.body.value.contentType.Some? && reply.value.body.value.size.Some? &&
      ParseInt(reply.value.body.value.size.value).Some?
    ensures r.Success? ==>
      r.value == CopiedObject(reply.value.body.value.contentType.value,
                              ParseInt(reply.value.body.value.size.value).value,
                              newUri, FilenameOrUnknown(file.filename))
    ensures Files.IsUploadedFile(file) && reply.Success? && reply.value.status == 404 ==>
      r == Failure(NotFound("Could not copy file: " + file.uri.value + " to " + newUri + ":404: " + reply.value.text))
    ensures Files.IsUploadedFile(file) && reply.Success? && reply.value.status != 404 && reply.value.body.Some? &&
            reply.value.body.value.name.Some? && reply.value.body.value.name != Some(newUri) ==>
      r == Failure(AssertionError)
  {
    if !Files.IsUploadedFile(file) then Failure(NotFound("To copy a uri must be set on the object"))
    else match reply
      case Failure(e) => Failure(e)
      case Success(resp) =>
        if resp.status == 404 then
          Failure(NotFound("Could not copy file: " + file.uri.value + " to " + newUri + ":404: " + resp.text))
        else match resp.body
          case None => Failure(ContentType)
          case Some(data) =>
            if data.name.None? then Failure(KeyError("name"))
            else if data.name.value != newUri then Failure(AssertionError)
            else if data.contentType.None? then Failure(KeyError("contentType"))
            else if data.size.None? then Failure(KeyError("size"))
            else match ParseInt(data.size.value)
              case None => Failure(ValueError(data.size.value))
              case Some(n) => Success(CopiedObject(data.contentType.value, n, newUri, FilenameOrUnknown(file.filename)))
  }

  /** The attempts of `copy`; each asks the generator for a new name. */
  function CopyAttempts(file: Files.FieldValue, names: nat -> string, replies: nat -> Result<CopyResponse>): nat -> Result<CopiedObject> {
    (i: nat) => CopyAttempt(file, names(i), replies(i))
  }

  /** `copy` with its decorator's ten attempts. */
  function CopyCall(file: Files.FieldValue, names: nat -> string, replies: nat -> Result<CopyResponse>): (Result<CopiedObject>, nat) {
    Retry.Backoff(Retry.DefaultTries, CopyAttempts(file, names, replies))
  }

  /** No attempt of `copy` raises a retriable fault of its own: unless the request itself
      raises one, the first attempt decides. */
  lemma CopySettlesAtFirstAnswer(file: Files.FieldValue, names: nat -> string, replies: nat -> Result<CopyResponse>)
    requires replies(0).Success?
    ensures CopyCall(file, names, replies) == (CopyAttempt(file, names(0), replies(0)), 1)
  {
    var attempt := CopyAttempts(file, names, replies);
    assert attempt(0) == CopyAttempt(file, names(0), replies(0));
    Retry.BackoffSettlesAtFirst(Retry.DefaultTries, attempt, 0);
  }

  /** `copy(to_dm)`: a successful copy seeds the destination with the copied object's
      type, size, new uri and filename; a failed one leaves it untouched. */
  method Copy(file: Files.FieldValue, to: UploadDataManager, names: nat -> string, replies: nat -> Result<CopyResponse>)
    returns (r: Result<()>)
    modifies to
    ensures var call := CopyCall(file, names, replies).0;
      && (r.Success? <==> call.Success?)
      && (call.Failure? ==> (r == Failure(call.error) &&
                             to.uri == old(to.uri) && to.contentType == old(to.contentType) &&
                             to.size == old(to.size) && to.filename == old(to.filename)))
      && (call.Success? ==> (to.uri == Some(call.value.uri) && to.contentType == call.value.contentType &&
                             to.size == Some(call.value.size) && to.filename == Some(call.value.filename)))
    ensures to.currentUpload == old(to.currentUpload) && to.resumableUri == old(to.resumableUri)
    ensures to.uploadFileId == old(to.uploadFileId)
  {
    var copied, tries := Retry.Run(Retry.DefaultTries, CopyAttempts(file, names, replies));
    if copied.Failure? {
      return Failure(copied.error);
    }
    to.Record(copied.value);
    r := Success(());
  }
}
