/** The earlier implementation of the same protocol (pserver/gcloudstorage/storage.py): a
    `GCloudFile` that keeps its upload state in its own fields, the `upload` loop that
    feeds it the request body in 512 KiB pieces, and `json_converter`. Each request is
    given as its answer: `put(headers)` answers a PUT sent with those headers, `post`
    likewise, and a delete through the API client as how `execute()` ends. */
module Legacy {
  import opened Common
  import opened Text
  import ResumableUpload
  import Session

  type Headers = map<string, string>

  /** CHUNK_SIZE: the bytes read from the request before the first PUT. */
  const ChunkSize: nat := 524288
  /** MAX_RETRIES of the upload loop. */
  const MaxRetries: nat := 5

  /** The fault raised when `_size` was never assigned. */
  const NoSize: Fault := AttributeError("'GCloudFile' object has no attribute '_size'")
  /** The fault raised when `_resumable_uri` was never assigned. */
  const NoResumableUri: Fault := AttributeError("'GCloudFile' object has no attribute '_resumable_uri'")
  /** The fault raised when `_upload_file_id` was never assigned. */
  const NoUploadFileId: Fault := AttributeError("'GCloudFile' object has no attribute '_upload_file_id'")

  /** An instance attribute that `__init__` does not assign: unset until a method assigns
      it, and reading it before then raises AttributeError. */
  datatype Attr<T> = Unset | Set(value: T)

  /** The headers of a PUT: the Content-Range is sent with every chunk and its total is the
      `_size` text as the client gave it. */
  function LegacyHeaders(contentType: string, len: nat, current: int, total: string): (h: Headers)
    ensures h.Keys == {"Content-Length", "Content-Type", "Content-Range"}
    ensures ParseInt(h["Content-Length"]) == Some(len)
    ensures h["Content-Type"] == contentType
    ensures h["Content-Range"] == ResumableUpload.ContentRange(current, len, total)
  {
    ParseNatToString(len);
    map["Content-Length" := NatToString(len), "Content-Type" := contentType,
        "Content-Range" := ResumableUpload.ContentRange(current, len, total)]
  }

  /** What `appendData` stores from a 308: the integer after the first `-` of `Range`. */
  function AckedOffset(range: Option<string>): Result<nat> {
    match range
    case None => Failure(KeyError("Range"))
    case Some(v) =>
      var parts := Split(v, "-");
      if |parts| < 2 then Failure(IndexError)
      else match ParseInt(parts[1])
        case None => Failure(ValueError(parts[1]))
        case Some(n) => Success(n)
  }

  /** A missing header, a header without `-` and a non-integer after it each raise. */
  lemma AckedOffsetVerdicts(range: Option<string>)
    ensures range.None? ==> AckedOffset(range) == Failure(KeyError("Range"))
    ensures range.Some? && |Split(range.value, "-")| < 2 ==> AckedOffset(range) == Failure(IndexError)
    ensures AckedOffset(range).Success? <==>
      range.Some? && |Split(range.value, "-")| >= 2 && ParseInt(Split(range.value, "-")[1]).Some?
    ensures AckedOffset(range).Success? ==> Some(AckedOffset(range).value) == ParseInt(Split(range.value, "-")[1])
  {
  }

  /** Google acknowledges `n` bytes with `bytes=0-{n-1}`; `appendData` stores n - 1, so the
      next Content-Range starts at a byte the server already holds and `_current_upload`
      trails the bytes received by one. */
  lemma AckedOffsetOneShort(n: nat)
    requires n >= 1
    ensures AckedOffset(Some("bytes=0-" + NatToString(n - 1))) == Success(n - 1)
    ensures ResumableUpload.ContentRange(n - 1, 1, "*")[..6 + |NatToString(n - 1)|] == "bytes " + NatToString(n - 1)
  {
    AckedRange(0, n - 1);
    assert NatToString(0) == "0";
    assert "bytes=" + NatToString(0) + "-" + NatToString(n - 1) == "bytes=0-" + NatToString(n - 1);
  }

  /** `bytes=lo-hi` reads back as `hi`. */
  lemma AckedRange(lo: nat, hi: nat)
    ensures AckedOffset(Some("bytes=" + NatToString(lo) + "-" + NatToString(hi))) == Success(hi)
  {
    ResumableUpload.DashNotInDigits(lo);
    DigitsHaveNo(NatToString(hi), '-');
    SplitInTwo("bytes=" + NatToString(lo), '-', NatToString(hi));
    assert "bytes=" + NatToString(lo) + "-" + NatToString(hi) == "bytes=" + NatToString(lo) + ['-'] + NatToString(hi);
    ParseNatToString(hi);
  }

  /** The offset to resume from after a 308: one past the last byte acknowledged. */
  function ResumeOffset(range: Option<string>): (r: Result<nat>)
    ensures r.Success? <==> AckedOffset(range).Success?
    ensures r.Success? ==> r.value == AckedOffset(range).value + 1
  {
    match AckedOffset(range)
    case Failure(e) => Failure(e)
    case Success(last) => Success(last + 1)
  }

  /** After `bytes=0-{n-1}` the resume offset is the number of bytes received. */
  lemma ResumeOffsetCountsBytes(n: nat)
    requires n >= 1
    ensures ResumeOffset(Some("bytes=0-" + NatToString(n - 1))) == Success(n)
  {
    AckedOffsetOneShort(n);
  }

  /** ... and it is the offset that passes the check of the current implementation's
      `append`. */
  lemma ResumeOffsetPassesCheck(n: nat)
    requires n >= 1
    ensures ResumableUpload.CheckRange(Some("bytes=0-" + NatToString(n - 1)), n) == Success(())
  {
    ResumableUpload.ContentRangeAcknowledged(0, n, "");
    assert 0 + n - 1 == n - 1;
  }

  /** How `appendData` ends for one answer, and the `_current_upload` it leaves. */
  function AppendOutcome(current: int, answer: Result<ResumableUpload.PutResponse>): Result<(ResumableUpload.PutResponse, int)> {
    match answer
    case Failure(e) => Failure(e)
    case Success(resp) =>
      if resp.status !in {200, 201, 308} then Failure(AssertionError)
      else if resp.status == 308 then
        match AckedOffset(resp.range)
        case Failure(e) => Failure(e)
        case Success(n) => Success((resp, n as int))
      else Success((resp, current))
  }

  /** Only 200, 201 and 308 get past the assert of `appendData`, only a 308 moves the
      offset, and it moves it to what the `Range` header says. */
  lemma AppendOutcomeVerdicts(current: int, answer: Result<ResumableUpload.PutResponse>)
    ensures var r := AppendOutcome(current, answer);
      && (r.Success? ==> answer.Success? && r.value.0 == answer.value && r.value.0.status in {200, 201, 308})
      && (answer.Success? && answer.value.status !in {200, 201, 308} ==> r == Failure(AssertionError))
      && (answer.Success? && answer.value.status in {200, 201} ==> r == Success((answer.value, current)))
      && (answer.Success? && answer.value.status == 308 ==>
            (r.Success? <==> AckedOffset(answer.value.range).Success?) &&
            (r.Success? ==> r.value.1 == AckedOffset(answer.value.range).value))
      && (answer.Failure? ==> r == Failure(answer.error))
  {
  }

  // ---------------------------------------------------------------------------
  // GCloudFile
  // ---------------------------------------------------------------------------

  /** The answer `initUpload` accepts: 200 with a Location, which becomes the resumable uri. */
  function InitAnswer(answer: Result<Session.PostResponse>): (r: Result<string>)
    ensures r.Success? <==> answer.Success? && answer.value.status == 200 && answer.value.location.Some?
    ensures r.Success? ==> r.value == answer.value.location.value
    ensures answer.Success? && answer.value.status != 200 ==> r == Failure(AssertionError)
    ensures answer.Success? && answer.value.status == 200 && answer.value.location.None? ==> r == Failure(KeyError("Location"))
  {
    match answer
    case Failure(e) => Failure(e)
    case Success(resp) =>
      if resp.status != 200 then Failure(AssertionError)
      else if resp.location.None? then Failure(KeyError("Location"))
      else Success(resp.location.value)
  }

  /** The POST headers of `initUpload`, besides the authorization: the upload length is the
      `_size` text as the client gave it. */
  function InitHeaders(contentType: string, size: string, metadataLength: nat): (h: Headers)
    ensures h.Keys == {"X-Upload-Content-Type", "X-Upload-Content-Length", "Content-Type", "Content-Length"}
    ensures h["X-Upload-Content-Type"] == contentType && h["X-Upload-Content-Length"] == size
    ensures h["Content-Type"] == "application/json; charset=UTF-8"
    ensures ParseInt(h["Content-Length"]) == Some(metadataLength)
  {
    ParseNatToString(metadataLength);
    map["X-Upload-Content-Type" := contentType, "X-Upload-Content-Length" := size,
        "Content-Type" := "application/json; charset=UTF-8", "Content-Length" := NatToString(metadataLength)]
  }

  /** A delete through the API client whose HttpError is ignored. */
  function IgnoreHttpError(outcome: Result<()>): (r: Result<()>)
    ensures r.Success? <==> outcome.Success? || outcome.error.HttpError?
    ensures r.Failure? ==> r == outcome
  {
    if outcome.Failure? && outcome.error.HttpError? then Success(()) else outcome
  }

  /** `deleteUpload` as written: `util` there is the `oauth2client` helper module imported at
      the top of the file, which has no `_service`, so the call never reaches the store. */
  function DeleteUploadAsWritten(uri: Option<string>): (r: Result<()>)
    ensures r.Failure? && r.error.AttributeError?
  {
    if uri.Some? then Failure(AttributeError("module 'oauth2client.util' has no attribute '_service'"))
    else Failure(AttributeError("No valid uri"))
  }

  /** `deleteUpload` with the blob store's client, as `initUpload` and `finishUpload` use
      it: a stored object is deleted and what `execute()` gives is returned. */
  function DeleteUploadIntended(uri: Option<string>, execute: Result<()>): (r: Result<()>)
    ensures uri.None? ==> r == Failure(AttributeError("No valid uri"))
    ensures uri.Some? ==> r == execute
  {
    if uri.Some? then execute else Failure(AttributeError("No valid uri"))
  }

  /** A stored object whose deletion would succeed is never deleted by `deleteUpload`. */
  lemma DeleteUploadNeverDeletes(u: string)
    ensures DeleteUploadIntended(Some(u), Success(())) == Success(())
    ensures DeleteUploadAsWritten(Some(u)) != DeleteUploadIntended(Some(u), Success(()))
  {
  }

  /** A file stored through the legacy manager; every field is one the source assigns. */
  class GCloudFile {
    var contentType: string
    var filename: Option<string>
    var md5hash: Option<string>
    /** `_size`: the X-UPLOAD-SIZE text; None while it was never assigned. */
    var size: Option<string>
    var currentUpload: int
    /** `_upload_file_id`: unset until `initUpload`; `finishUpload` sets it to None. */
    var uploadFileId: Attr<Option<string>>
    /** `_resumable_uri`: None while it was never assigned (it is only ever set to a
        Location). */
    var resumableUri: Option<string>
    var uri: Option<string>

    constructor(contentType: string, filename: Option<string>)
      ensures this.contentType == contentType && this.filename == filename
      ensures currentUpload == 0 && size.None? && md5hash.None?
      ensures uploadFileId.Unset? && resumableUri.None? && uri.None?
    {
      this.contentType := contentType;
      this.filename := filename;
      md5hash := None;
      size := None;
      currentUpload := 0;
      uploadFileId := Unset;
      resumableUri := None;
      uri := None;
    }

    /** The `size` property. */
    function Size(): (s: Option<string>)
      reads this
      ensures s.Some? <==> size.Some?
      ensures s.Some? ==> s == size
    {
      size
    }

    /** `initUpload`: delete a pending upload (ignoring HttpError), take a new upload id,
        then open the resumable session. The new id is kept even when the POST fails. */
    method InitUpload(siteId: string, idHex: string, metadataLength: nat, deletePending: Result<()>,
                      post: Headers -> Result<Session.PostResponse>) returns (r: Result<()>)
      modifies this
      ensures old(uploadFileId).Set? && old(uploadFileId).value.Some? && IgnoreHttpError(deletePending).Failure? ==>
        r == Failure(deletePending.error) && uploadFileId == old(uploadFileId)
      ensures !(old(uploadFileId).Set? && old(uploadFileId).value.Some?) || IgnoreHttpError(deletePending).Success? ==>
        && uploadFileId == Set(Some(siteId + "/" + idHex))
        && (old(size).None? ==> r == Failure(NoSize))
        && (old(size).Some? ==>
              var answer := InitAnswer(post(InitHeaders(contentType, old(size).value, metadataLength)));
              (r.Success? <==> answer.Success?) &&
              (answer.Failure? ==> r == Failure(answer.error)) &&
              (answer.Success? ==> resumableUri == Some(answer.value) && currentUpload == 0))
      ensures r.Failure? ==> resumableUri == old(resumableUri) && currentUpload == old(currentUpload)
      ensures r.Success? ==> resumableUri.Some? && uploadFileId.Set?
      ensures uri == old(uri) && size == old(size) && contentType == old(contentType)
      ensures filename == old(filename) && md5hash == old(md5hash)
    {
      if uploadFileId.Set? && uploadFileId.value.Some? {
        var cleared := IgnoreHttpError(deletePending);
        if cleared.Failure? {
          return Failure(deletePending.error);
        }
      }
      uploadFileId := Set(Some(siteId + "/" + idHex));
      if size.None? {
        return Failure(NoSize);
      }
      var answer := InitAnswer(post(InitHeaders(contentType, size.value, metadataLength)));
      if answer.Failure? {
        return Failure(answer.error);
      }
      resumableUri := Some(answer.value);
      currentUpload := 0;
      r := Success(());
    }

    /** `appendData`: PUT the chunk with its Content-Range, and on a 308 store what the
        server's `Range` says. */
    method AppendData(data: Bytes, put: Headers -> Result<ResumableUpload.PutResponse>)
      returns (r: Result<ResumableUpload.PutResponse>)
      modifies this
      ensures old(size).None? ==> r == Failure(NoSize) && currentUpload == old(currentUpload)
      ensures old(size).Some? && old(resumableUri).None? ==> r == Failure(NoResumableUri) && currentUpload == old(currentUpload)
      ensures old(size).Some? && old(resumableUri).Some? ==>
        var o := AppendOutcome(old(currentUpload), put(LegacyHeaders(contentType, |data|, old(currentUpload), old(size).value)));
        (r.Success? <==> o.Success?) &&
        (o.Success? ==> r.value == o.value.0 && currentUpload == o.value.1) &&
        (o.Failure? ==> r == Failure(o.error) && currentUpload == old(currentUpload))
      ensures uploadFileId == old(uploadFileId) && resumableUri == old(resumableUri) && uri == old(uri)
      ensures size == old(size) && contentType == old(contentType)
      ensures filename == old(filename) && md5hash == old(md5hash)
    {
      if size.None? {
        return Failure(NoSize);
      }
      if resumableUri.None? {
        return Failure(NoResumableUri);
      }
      var o := AppendOutcome(currentUpload, put(LegacyHeaders(contentType, |data|, currentUpload, size.value)));
      if o.Failure? {
        return Failure(o.error);
      }
      currentUpload := o.value.1;
      r := Success(o.value.0);
    }

    /** `finishUpload`: delete the stored object (ignoring HttpError), then promote the
        upload id to the stored uri; an upload id that was never assigned raises. */
    method FinishUpload(deleteStored: Result<()>) returns (r: Result<()>)
      modifies this
      ensures old(uri).Some? && IgnoreHttpError(deleteStored).Failure? ==>
        r == Failure(deleteStored.error) && uri == old(uri) && uploadFileId == old(uploadFileId)
      ensures (old(uri).None? || IgnoreHttpError(deleteStored).Success?) && old(uploadFileId).Unset? ==>
        r == Failure(NoUploadFileId) && uri == old(uri) && uploadFileId == old(uploadFileId)
      ensures (old(uri).None? || IgnoreHttpError(deleteStored).Success?) && old(uploadFileId).Set? ==>
        r == Success(()) && uri == old(uploadFileId).value && uploadFileId == Set(None)
      ensures currentUpload == old(currentUpload) && resumableUri == old(resumableUri)
      ensures size == old(size) && contentType == old(contentType)
      ensures filename == old(filename) && md5hash == old(md5hash)
    {
      if uri.Some? {
        var cleared := IgnoreHttpError(deleteStored);
        if cleared.Failure? {
          return cleared;
        }
      }
      if uploadFileId.Unset? {
        return Failure(NoUploadFileId);
      }
      uri := uploadFileId.value;
      uploadFileId := Set(None);
      r := Success(());
    }

    /** `deleteUpload`, as written: it always raises AttributeError. */
    method DeleteUpload() returns (r: Result<()>)
      ensures r == DeleteUploadAsWritten(uri)
      ensures r.Failure? && r.error.AttributeError?
    {
      r := DeleteUploadAsWritten(uri);
    }
  }

  // ---------------------------------------------------------------------------
  // json_converter
  // ---------------------------------------------------------------------------

  /** `json_converter`: None stays None; a file becomes its filename, content type and size. */
  function JsonConverter(value: GCloudFile?): (r: Option<map<string, Option<string>>>)
    reads value
    ensures r.None? <==> value == null
    ensures r.Some? ==> r.value.Keys == {"filename", "contenttype", "size"}
    ensures r.Some? ==> r.value["filename"] == value.filename && r.value["contenttype"] == Some(value.contentType)
    ensures r.Some? ==> r.value["size"] == value.Size()
  {
    if value == null then None
    else Some(map["filename" := value.filename, "contenttype" := Some(value.contentType), "size" := value.Size()])
  }

  // ---------------------------------------------------------------------------
  // GCloudFileManager.upload
  // ---------------------------------------------------------------------------

  /** `data[k:]` for any integer k, as Python slices. */
  function DropFront(data: Bytes, k: int): (r: Bytes)
    ensures 0 <= k <= |data| ==> r == data[k..]
    ensures k >= |data| ==> r == []
    ensures k < 0 ==> |r| == if -k <= |data| then -k else |data|
    ensures k < 0 ==> r == data[|data| - |r|..]
  {
    if k >= |data| then []
    else if k >= 0 then data[k..]
    else if -k <= |data| then data[|data| + k..]
    else data
  }

  /** `readexactly(n)` on the request body from `pos`, or the partial read at its end. */
  function Refill(body: Bytes, pos: nat, n: nat): (r: Bytes)
    requires pos <= |body|
    ensures r == body[pos..if pos + n <= |body| then pos + n else |body|]
  {
    if pos + n <= |body| then body[pos..pos + n] else body[pos..]
  }

  /** Dropping the bytes acknowledged from `current` up to `next` from the front of a buffer
      that holds the body from `current` to `pos` (the body starting at offset `base`), and
      reading as many more, leaves the body from `next` to the new read position. */
  lemma DropAndRefill(body: Bytes, base: int, current: int, next: int, pos: nat)
    requires base <= current <= next && next - base <= pos <= |body|
    ensures var more := Refill(body, pos, next - current);
      DropFront(body[current - base..pos], next - current) + more == body[next - base..pos + |more|]
  {
    var k := next - current;
    var end := if pos + k <= |body| then pos + k else |body|;
    assert body[current - base..pos][k..] == body[next - base..pos];
    assert body[next - base..pos] + body[pos..end] == body[next - base..end];
  }

  /** How the loop ends: with a 200/201 or an empty buffer (then `finishUpload` runs), with
      a fault, or with no answer left for the next PUT. */
  datatype UploadEnd = Finished | Raised(fault: Fault) | OutOfAnswers

  /** Where the loop leaves things: how it ended, `_current_upload`, the buffer `data`
      and how much of the request body has been read. */
  datatype Rounds = Rounds(end: UploadEnd, current: int, pending: Bytes, read: nat)

  /** What the loop does after a PUT has answered `status`: stop at 200/201; on a 308
      reset the retry counter; on anything else count a retry, and give up past
      MaxRetries. A 308 that moved `_current_upload` back asks the body's `readexactly`
      for a negative count, which reads nothing, so the loop goes on. */
  datatype Verdict = Continue(count: nat) | Stop(end: UploadEnd)

  function RoundVerdict(status: int, count: nat): (v: Verdict)
    ensures status in {200, 201} ==> v == Stop(Finished)
    ensures status == 308 ==> v == Continue(0)
    ensures status !in {200, 201, 308} ==>
      (v.Stop? <==> count + 1 > MaxRetries) &&
      (v.Stop? ==> v.end == Raised(AttributeError("MAX retries error"))) &&
      (v.Continue? ==> v.count == count + 1)
  {
    if status in {200, 201} then Stop(Finished)
    else if status == 308 then Continue(0)
    else if count + 1 > MaxRetries then Stop(Raised(AttributeError("MAX retries error")))
    else Continue(count + 1)
  }

  /** What a round's PUT leads to: `step(k, len, current)` is how `appendData` ends in
      round k for a buffer of `len` bytes sent at offset `current`, with the offset it
      leaves. */
  type Step = (nat, nat, int) -> Result<(ResumableUpload.PutResponse, int)>

  /** The rounds' outcomes when `answers[k]` answers the PUT of round k. */
  function Outcomes(contentType: string, size: string, answers: seq<Headers -> Result<ResumableUpload.PutResponse>>): Step {
    (k: nat, len: nat, current: int) =>
      if k < |answers| then AppendOutcome(current, answers[k](LegacyHeaders(contentType, len, current, size)))
      else Failure(IndexError)
  }

  /** Round k's outcome is how `appendData` ends on the k-th answer. */
  lemma OutcomesAt(contentType: string, size: string, answers: seq<Headers -> Result<ResumableUpload.PutResponse>>,
                   k: nat, len: nat, current: int)
    requires k < |answers|
    ensures Outcomes(contentType, size, answers)(k, len, current) ==
      AppendOutcome(current, answers[k](LegacyHeaders(contentType, len, current, size)))
  {
  }

  /** An outcome of `appendData`: only 200, 201 and 308 get through its assert, and only
      a 308 moves the offset from `current`. */
  predicate AppendLikeOutcome(o: Result<(ResumableUpload.PutResponse, int)>, current: int) {
    o.Success? ==> o.value.0.status in {200, 201, 308} && (o.value.0.status != 308 ==> o.value.1 == current)
  }

  /** Every round ends as `appendData` can. */
  ghost predicate AppendLike(step: Step) {
    forall k: nat, len: nat, current: int :: AppendLikeOutcome(step(k, len, current), current)
  }

  lemma OutcomesAreAppendLike(contentType: string, size: string, answers: seq<Headers -> Result<ResumableUpload.PutResponse>>)
    ensures AppendLike(Outcomes(contentType, size, answers))
  {
    var step := Outcomes(contentType, size, answers);
    forall k: nat, len: nat, current: int
      ensures AppendLikeOutcome(step(k, len, current), current)
    {
      if k < |answers| {
        OutcomesAt(contentType, size, answers, k, len, current);
        AppendOutcomeVerdicts(current, answers[k](LegacyHeaders(contentType, len, current, size)));
      }
    }
  }

  /** The rounds of the upload loop from round k on, with n PUTs answered: `data` is the
      buffer, `pos` how much of the body has been read, `current` the file's
      `_current_upload`, `count` the retry counter. */
  function UploadRounds(step: Step, n: nat, body: Bytes, pos: nat, data: Bytes, current: int, count: nat, k: nat): (r: Rounds)
    requires pos <= |body| && k <= n
    decreases n - k
  {
    if |data| == 0 then Rounds(Finished, current, data, pos)
    else if k == n then Rounds(OutOfAnswers, current, data, pos)
    else match step(k, |data|, current)
      case Failure(e) => Rounds(Raised(e), current, data, pos)
      case Success(o) =>
        var readed := o.1 - current;
        match RoundVerdict(o.0.status, count)
        case Stop(end) => Rounds(end, o.1, DropFront(data, readed), pos)
        case Continue(c) =>
          var more := if o.0.status == 308 && readed >= 0 then Refill(body, pos, readed) else [];
          UploadRounds(step, n, body, pos + |more|, DropFront(data, readed) + more, o.1, c, k + 1)
  }

  /** The loop stops at the first 200/201, keeping the offset and the buffer. */
  lemma UploadStopsAtFinal(contentType: string, size: string, body: Bytes, pos: nat, data: Bytes,
                           current: int, count: nat, answers: seq<Headers -> Result<ResumableUpload.PutResponse>>, k: nat)
    requires pos <= |body| && k < |answers| && |data| > 0
    requires var a := answers[k](LegacyHeaders(contentType, |data|, current, size));
      a.Success? && a.value.status in {200, 201}
    ensures UploadRounds(Outcomes(contentType, size, answers), |answers|, body, pos, data, current, count, k) ==
      Rounds(Finished, current, data, pos)
  {
    var a := answers[k](LegacyHeaders(contentType, |data|, current, size));
    assert Outcomes(contentType, size, answers)(k, |data|, current) == AppendOutcome(current, a);
  }

  /** With outcomes like those of `appendData`, every round that is not final is a 308, so
      the retry counter never moves and "MAX retries error" is never raised. */
  lemma {:induction false} RoundsNeverTrip(step: Step, n: nat, body: Bytes, pos: nat, data: Bytes,
                                           current: int, count: nat, k: nat)
    requires pos <= |body| && k <= n && AppendLike(step)
    requires forall j: nat, len: nat, c: int :: step(j, len, c) != Failure(AttributeError("MAX retries error"))
    ensures UploadRounds(step, n, body, pos, data, current, count, k).end != Raised(AttributeError("MAX retries error"))
    decreases n - k
  {
    if |data| > 0 && k < n {
      var o := step(k, |data|, current);
      assert AppendLikeOutcome(o, current);
      if o.Failure? {
        RoundsFail(step, n, body, pos, data, current, count, k, o.error);
      } else {
        var next := o.value.1;
        var v := RoundVerdict(o.value.0.status, count);
        if v.Continue? {
          var more := if o.value.0.status == 308 && next - current >= 0 then Refill(body, pos, next - current) else [];
          RoundsContinue(step, n, body, pos, data, current, count, k, o.value.0, next, pos + |more|, DropFront(data, next - current) + more, v.count);
          RoundsNeverTrip(step, n, body, pos + |more|, DropFront(data, next - current) + more, next, v.count, k + 1);
        } else {
          RoundsStop(step, n, body, pos, data, current, count, k, o.value.0, next);
        }
      }
    }
  }


  /** The upload loop never raises "MAX retries error" unless a PUT itself raised it:
      `appendData` asserts the status, so its retry branch is dead. */
  lemma UploadCounterNeverTrips(contentType: string, size: string, body: Bytes, pos: nat, data: Bytes,
                                current: int, answers: seq<Headers -> Result<ResumableUpload.PutResponse>>)
    requires pos <= |body|
    requires forall j, h :: 0 <= j < |answers| ==> answers[j](h) != Failure(AttributeError("MAX retries error"))
    ensures UploadRounds(Outcomes(contentType, size, answers), |answers|, body, pos, data, current, 0, 0).end !=
      Raised(AttributeError("MAX retries error"))
  {
    var step := Outcomes(contentType, size, answers);
    OutcomesAreAppendLike(contentType, size, answers);
    forall j: nat, len: nat, c: int
      ensures step(j, len, c) != Failure(AttributeError("MAX retries error"))
    {
      if j < |answers| {
        var a := answers[j](LegacyHeaders(contentType, len, c, size));
        AppendOutcomeVerdicts(c, a);
      }
    }
    RoundsNeverTrip(step, |answers|, body, pos, data, current, 0, 0);
  }

  /** Every 308 acknowledges between none and all of the buffer. */
  ghost predicate AcksWithinBuffer(step: Step, n: nat, body: Bytes, pos: nat, data: Bytes, current: int, k: nat)
    requires pos <= |body| && k <= n
    decreases n - k
  {
    |data| == 0 || k == n ||
    match step(k, |data|, current)
    case Failure(_) => true
    case Success(o) =>
      o.0.status != 308 ||
      (current <= o.1 <= current + |data| &&
       var more := Refill(body, pos, o.1 - current);
       AcksWithinBuffer(step, n, body, pos + |more|, DropFront(data, o.1 - current) + more, o.1, k + 1))
  }

  /** One round of the loop, unfolded: a fault ends it where it stands, a 308 moves on to
      the next round with the acknowledged bytes dropped and as many read again, and a
      200/201 ends it. */
  lemma RoundsUnfold(step: Step, n: nat, body: Bytes, pos: nat, data: Bytes, current: int, count: nat, k: nat)
    requires pos <= |body| && k < n && |data| > 0
    ensures var o := step(k, |data|, current);
      && (o.Failure? ==> UploadRounds(step, n, body, pos, data, current, count, k) == Rounds(Raised(o.error), current, data, pos))
      && (o.Success? && o.value.0.status == 308 && current <= o.value.1 ==>
            var more := Refill(body, pos, o.value.1 - current);
            UploadRounds(step, n, body, pos, data, current, count, k) ==
            UploadRounds(step, n, body, pos + |more|, DropFront(data, o.value.1 - current) + more, o.value.1, 0, k + 1))
      && (o.Success? && o.value.0.status in {200, 201} ==>
            UploadRounds(step, n, body, pos, data, current, count, k) ==
            Rounds(Finished, o.value.1, DropFront(data, o.value.1 - current), pos))
  {
  }

  /** A PUT that raises ends the loop where it stands. */
  lemma RoundsFail(step: Step, n: nat, body: Bytes, pos: nat, data: Bytes, current: int, count: nat, k: nat, fault: Fault)
    requires pos <= |body| && k < n && |data| > 0
    requires step(k, |data|, current) == Failure(fault)
    ensures UploadRounds(step, n, body, pos, data, current, count, k) == Rounds(Raised(fault), current, data, pos)
  {
  }

  /** A round the loop goes on from, where the PUT answered `resp` and left the offset at
      `next`: the acknowledged bytes leave the buffer, as many are read again after a 308
      (`pos'` is the new read position, `data'` the new buffer), and the counter is the
      verdict's. */
  lemma RoundsContinue(step: Step, n: nat, body: Bytes, pos: nat, data: Bytes, current: int, count: nat, k: nat,
                       resp: ResumableUpload.PutResponse, next: int, pos': nat, data': Bytes, count': nat)
    requires pos <= |body| && k < n && |data| > 0
    requires step(k, |data|, current) == Success((resp, next))
    requires RoundVerdict(resp.status, count) == Continue(count')
    requires var more := if resp.status == 308 && next - current >= 0 then Refill(body, pos, next - current) else [];
      pos' == pos + |more| && data' == DropFront(data, next - current) + more
    ensures pos' <= |body|
    ensures UploadRounds(step, n, body, pos, data, current, count, k) == UploadRounds(step, n, body, pos', data', next, count', k + 1)
  {
  }

  /** A round the loop stops at: it ends as the verdict says, with the acknowledged bytes
      dropped from the buffer. */
  lemma RoundsStop(step: Step, n: nat, body: Bytes, pos: nat, data: Bytes, current: int, count: nat, k: nat,
                   resp: ResumableUpload.PutResponse, next: int)
    requires pos <= |body| && k < n && |data| > 0
    requires step(k, |data|, current) == Success((resp, next))
    requires RoundVerdict(resp.status, count).Stop?
    ensures UploadRounds(step, n, body, pos, data, current, count, k) ==
      Rounds(RoundVerdict(resp.status, count).end, next, DropFront(data, next - current), pos)
  {
  }

  /** The window is kept when the loop stops at once: on an empty buffer, with no answer
      left, on a fault, and on a 200/201, which does not move the offset. */
  lemma WindowAtStop(step: Step, n: nat, body: Bytes, base: int, pos: nat, current: int, count: nat, k: nat)
    requires pos <= |body| && k <= n && base <= current && current - base <= pos
    requires var data := body[current - base..pos];
      |data| == 0 || k == n ||
      (AppendLikeOutcome(step(k, |data|, current), current) &&
       (step(k, |data|, current).Success? ==> step(k, |data|, current).value.0.status != 308))
    ensures Windowed(body, base, UploadRounds(step, n, body, pos, body[current - base..pos], current, count, k))
  {
    var data := body[current - base..pos];
    var r := UploadRounds(step, n, body, pos, data, current, count, k);
    if |data| == 0 || k == n {
      assert r.current == current && r.pending == data && r.read == pos;
    } else {
      RoundsUnfold(step, n, body, pos, data, current, count, k);
      assert DropFront(data, 0) == data;
      assert r.current == current && r.pending == data && r.read == pos;
    }
  }

  /** A 308 that acknowledges within the window moves the loop on to the window from the
      acknowledged offset `next` up to the new read position `pos'`, where the
      acknowledgement check still holds. */
  lemma AckStep(step: Step, n: nat, body: Bytes, base: int, pos: nat, current: int, count: nat, k: nat)
    returns (next: int, pos': nat)
    requires pos <= |body| && k < n && base <= current && current - base < pos
    requires AcksWithinBuffer(step, n, body, pos, body[current - base..pos], current, k)
    requires var o := step(k, pos - (current - base), current); o.Success? && o.value.0.status == 308
    ensures next == step(k, pos - (current - base), current).value.1
    ensures current <= next && next - base <= pos' <= |body|
    ensures AcksWithinBuffer(step, n, body, pos', body[next - base..pos'], next, k + 1)
    ensures UploadRounds(step, n, body, pos, body[current - base..pos], current, count, k) ==
      UploadRounds(step, n, body, pos', body[next - base..pos'], next, 0, k + 1)
  {
    var data := body[current - base..pos];
    var (resp, after) := step(k, |data|, current).value;
    next := after;
    AcksOneRound(step, n, body, pos, data, current, k, resp, next);
    var more := Refill(body, pos, next - current);
    pos' := pos + |more|;
    DropAndRefill(body, base, current, next, pos);
    var data' := DropFront(data, next - current) + more;
    assert data' == body[next - base..pos'];
    RoundsContinue(step, n, body, pos, data, current, count, k, resp, next, pos', data', 0);
  }

  /** A 308 within a buffer whose acknowledgements all stay within it acknowledges between
      none and all of it, and the rounds after it keep to the same. */
  lemma AcksOneRound(step: Step, n: nat, body: Bytes, pos: nat, data: Bytes, current: int, k: nat,
                     resp: ResumableUpload.PutResponse, next: int)
    requires pos <= |body| && k < n && |data| > 0
    requires step(k, |data|, current) == Success((resp, next)) && resp.status == 308
    requires AcksWithinBuffer(step, n, body, pos, data, current, k)
    ensures current <= next <= current + |data|
    ensures pos + |Refill(body, pos, next - current)| <= |body|
    ensures AcksWithinBuffer(step, n, body, pos + |Refill(body, pos, next - current)|,
                             DropFront(data, next - current) + Refill(body, pos, next - current), next, k + 1)
  {
  }

  /** The buffer is the part of the body from the acknowledged offset (the body starting at
      offset `base`) to the read position. */
  predicate Windowed(body: Bytes, base: int, r: Rounds) {
    base <= r.current && r.current - base <= r.read <= |body| && r.pending == body[r.current - base..r.read]
  }

  /** While every 308 acknowledges between none and all of the buffer, the buffer stays the
      part of the body from the acknowledged offset to the read position: after each PUT
      exactly the bytes `_current_upload` moved over leave its front. */
  lemma {:induction false} UploadKeepsWindow(step: Step, n: nat, body: Bytes, base: int, pos: nat,
                                             current: int, count: nat, k: nat)
    requires pos <= |body| && k <= n && base <= current && current - base <= pos && AppendLike(step)
    requires AcksWithinBuffer(step, n, body, pos, body[current - base..pos], current, k)
    ensures Windowed(body, base, UploadRounds(step, n, body, pos, body[current - base..pos], current, count, k))
    decreases n - k
  {
    var o := if k < n then step(k, pos - (current - base), current) else Failure(IndexError);
    if k < n && current - base < pos && o.Success? && o.value.0.status == 308 {
      var next, pos' := AckStep(step, n, body, base, pos, current, count, k);
      UploadKeepsWindow(step, n, body, base, pos', next, 0, k + 1);
    } else {
      assert k < n && current - base < pos ==> AppendLikeOutcome(o, current);
      WindowAtStop(step, n, body, base, pos, current, count, k);
    }
  }

  /** `step` gives each round the outcome of `appendData` on that round's answer. */
  ghost predicate StepsFollow(step: Step, contentType: string, size: string,
                              answers: seq<Headers -> Result<ResumableUpload.PutResponse>>) {
    forall k: nat, len: nat, current: int {:trigger answers[k], LegacyHeaders(contentType, len, current, size)} ::
      k < |answers| ==> step(k, len, current) == AppendOutcome(current, answers[k](LegacyHeaders(contentType, len, current, size)))
  }

  lemma OutcomesFollow(contentType: string, size: string, answers: seq<Headers -> Result<ResumableUpload.PutResponse>>)
    ensures StepsFollow(Outcomes(contentType, size, answers), contentType, size, answers)
  {
    forall k: nat, len: nat, current: int | k < |answers|
      ensures Outcomes(contentType, size, answers)(k, len, current) ==
        AppendOutcome(current, answers[k](LegacyHeaders(contentType, len, current, size)))
    {
      OutcomesAt(contentType, size, answers, k, len, current);
    }
  }

  /** One round of the loop of `upload`: PUT the buffer, then stop, or drop what a 308
      acknowledged and read as much again. */
  method SendRound(file: GCloudFile, body: Bytes, pos: nat, data: Bytes, count: nat, k: nat,
                   answers: seq<Headers -> Result<ResumableUpload.PutResponse>>, ghost step: Step)
    returns (stop: Option<UploadEnd>, data': Bytes, pos': nat, count': nat)
    requires pos <= |body| && k < |answers| && |data| > 0 && file.size.Some? && file.resumableUri.Some?
    requires StepsFollow(step, file.contentType, file.size.value, answers)
    modifies file
    ensures stop.Some? ==> (UploadRounds(step, |answers|, body, pos, data, old(file.currentUpload), count, k) ==
      Rounds(stop.value, file.currentUpload, data', pos'))
    ensures stop.None? ==> (pos' <= |body| &&
      UploadRounds(step, |answers|, body, pos, data, old(file.currentUpload), count, k) ==
      UploadRounds(step, |answers|, body, pos', data', file.currentUpload, count', k + 1))
    ensures file.uploadFileId == old(file.uploadFileId) && file.resumableUri == old(file.resumableUri)
    ensures file.uri == old(file.uri) && file.size == old(file.size) && file.contentType == old(file.contentType)
    ensures file.filename == old(file.filename) && file.md5hash == old(file.md5hash)
  {
    var before := file.currentUpload;
    var resp := file.AppendData(data, answers[k]);
    var after := file.currentUpload;
    var o := if resp.Failure? then Failure(resp.error) else Success((resp.value, after));
    assert o == step(k, |data|, before);
    var current';
    stop, data', current', pos', count' := NextRound(step, |answers|, body, pos, data, before, count, k, o);
  }

  /** What the loop does with the outcome `o` of round k: stop with the end it reaches, or
      go on with the acknowledged bytes dropped from the buffer and as many read again. */
  method NextRound(ghost step: Step, ghost n: nat, body: Bytes, pos: nat, data: Bytes, current: int, count: nat, k: nat,
                   o: Result<(ResumableUpload.PutResponse, int)>)
    returns (stop: Option<UploadEnd>, data': Bytes, current': int, pos': nat, count': nat)
    requires pos <= |body| && k < n && |data| > 0 && o == step(k, |data|, current)
    ensures current' == if o.Success? then o.value.1 else current
    ensures stop.Some? ==> UploadRounds(step, n, body, pos, data, current, count, k) == Rounds(stop.value, current', data', pos')
    ensures stop.None? ==> (pos' <= |body| &&
      UploadRounds(step, n, body, pos, data, current, count, k) == UploadRounds(step, n, body, pos', data', current', count', k + 1))
  {
    if o.Failure? {
      RoundsFail(step, n, body, pos, data, current, count, k, o.error);
      return Some(Raised(o.error)), data, current, pos, count;
    }
    var (resp, next) := o.value;
    var readed := next - current;
    var verdict := RoundVerdict(resp.status, count);
    if verdict.Stop? {
      RoundsStop(step, n, body, pos, data, current, count, k, resp, next);
      return Some(verdict.end), DropFront(data, readed), next, pos, count;
    }
    var more := if resp.status == 308 && readed >= 0 then Refill(body, pos, readed) else [];
    stop, data', current', pos', count' := None, DropFront(data, readed) + more, next, pos + |more|, verdict.count;
    RoundsContinue(step, n, body, pos, data, current, count, k, resp, next, pos', data', count');
  }

  /** The loop of `upload` after the first read: PUT the buffer until it is empty or a
      200/201 arrives, dropping what each 308 acknowledges and reading as much again.
      `step` stands for the rounds' outcomes, `Outcomes` of the answers. */
  method SendBody(file: GCloudFile, body: Bytes, pos0: nat, answers: seq<Headers -> Result<ResumableUpload.PutResponse>>,
                  ghost step: Step)
    returns (end: UploadEnd, data: Bytes, pos: nat)
    requires pos0 <= |body| && file.size.Some? && file.resumableUri.Some?
    requires StepsFollow(step, file.contentType, file.size.value, answers)
    modifies file
    ensures Rounds(end, file.currentUpload, data, pos) ==
      UploadRounds(step, |answers|, body, pos0, body[..pos0], old(file.currentUpload), 0, 0)
    ensures file.uploadFileId == old(file.uploadFileId) && file.resumableUri == old(file.resumableUri)
    ensures file.uri == old(file.uri) && file.size == old(file.size) && file.contentType == old(file.contentType)
    ensures file.filename == old(file.filename) && file.md5hash == old(file.md5hash)
  {
    data := body[..pos0];
    pos := pos0;
    var count: nat := 0;
    var k := 0;
    ghost var rounds := UploadRounds(step, |answers|, body, pos0, body[..pos0], file.currentUpload, 0, 0);
    while |data| > 0
      invariant pos <= |body| && k <= |answers|
      invariant file.size == old(file.size) && file.contentType == old(file.contentType)
      invariant file.uploadFileId == old(file.uploadFileId) && file.resumableUri == old(file.resumableUri)
      invariant file.uri == old(file.uri) && file.filename == old(file.filename) && file.md5hash == old(file.md5hash)
      invariant UploadRounds(step, |answers|, body, pos, data, file.currentUpload, count, k) == rounds
      decreases |answers| - k
    {
      if k == |answers| {
        return OutOfAnswers, data, pos;
      }
      var stop;
      stop, data, pos, count := SendRound(file, body, pos, data, count, k, answers, step);
      if stop.Some? {
        return stop.value, data, pos;
      }
      k := k + 1;
    }
    end := Finished;
  }

  /** `GCloudFileManager.upload`: find or create the field's file, take the upload headers,
      open the session, send the body and finish. `field` is the file already in the
      field, if any; the new file and the loop's end are returned. */
  method Upload(field: GCloudFile?, requestContentType: string, requestHeaders: map<string, string>,
                filenameHex: string, siteId: string, idHex: string, metadataLength: nat,
                deletePending: Result<()>, post: Headers -> Result<Session.PostResponse>,
                body: Bytes, answers: seq<Headers -> Result<ResumableUpload.PutResponse>>, deleteStored: Result<()>)
    returns (file: GCloudFile, end: UploadEnd)
    modifies field
    ensures field != null ==> file == field
    ensures field == null ==> fresh(file) && file.contentType == requestContentType
    ensures file.md5hash == if "X-UPLOAD-MD5HASH" in requestHeaders then Some(requestHeaders["X-UPLOAD-MD5HASH"]) else None
    ensures "X-UPLOAD-SIZE" !in requestHeaders ==> end == Raised(AttributeError("x-upload-size header needed"))
    ensures "X-UPLOAD-SIZE" in requestHeaders ==>
      file.size == Some(requestHeaders["X-UPLOAD-SIZE"]) &&
      file.filename == Some(if "X-UPLOAD-FILENAME" in requestHeaders then requestHeaders["X-UPLOAD-FILENAME"] else filenameHex)
    ensures end == Finished ==> file.uploadFileId == Set(None) && file.uri == Some(siteId + "/" + idHex)
  {
    if field == null {
      file := new GCloudFile(requestContentType, None);
    } else {
      file := field;
    }
    file.md5hash := if "X-UPLOAD-MD5HASH" in requestHeaders then Some(requestHeaders["X-UPLOAD-MD5HASH"]) else None;
    if "X-UPLOAD-SIZE" !in requestHeaders {
      return file, Raised(AttributeError("x-upload-size header needed"));
    }
    file.size := Some(requestHeaders["X-UPLOAD-SIZE"]);
    file.filename := Some(if "X-UPLOAD-FILENAME" in requestHeaders then requestHeaders["X-UPLOAD-FILENAME"] else filenameHex);
    var init := file.InitUpload(siteId, idHex, metadataLength, deletePending, post);
    if init.Failure? {
      return file, Raised(init.error);
    }
    end := SendAndFinish(file, body, answers, deleteStored);
  }

  /** The part of `upload` after `initUpload`: read the first chunk, send the body, and on
      success `finishUpload`. It ends as the rounds end, except that a finished upload can
      still fail in `finishUpload`. */
  method SendAndFinish(file: GCloudFile, body: Bytes, answers: seq<Headers -> Result<ResumableUpload.PutResponse>>,
                       deleteStored: Result<()>) returns (end: UploadEnd)
    requires file.size.Some? && file.resumableUri.Some? && file.uploadFileId.Set?
    modifies file
    ensures var first := Refill(body, 0, ChunkSize);
      var rounds := UploadRounds(Outcomes(old(file.contentType), old(file.size).value, answers), |answers|,
                                 body, |first|, first, old(file.currentUpload), 0, 0);
      && (rounds.end != Finished ==> end == rounds.end && file.uri == old(file.uri))
      && (rounds.end == Finished ==>
            (end == Finished <==> old(file.uri).None? || IgnoreHttpError(deleteStored).Success?))
    ensures end == Finished ==> file.uploadFileId == Set(None) && file.uri == old(file.uploadFileId).value
    ensures file.size == old(file.size) && file.contentType == old(file.contentType)
    ensures file.filename == old(file.filename) && file.md5hash == old(file.md5hash)
  {
    var first := Refill(body, 0, ChunkSize);
    var pending, read;
    OutcomesFollow(file.contentType, file.size.value, answers);
    end, pending, read := SendBody(file, body, |first|, answers, Outcomes(file.contentType, file.size.value, answers));
    if end != Finished {
      return;
    }
    var finished := file.FinishUpload(deleteStored);
    if finished.Failure? {
      end := Raised(finished.error);
    }
  }
}
