/** The stored-file side of the file manager (guillotina_gcloudstorage/storage.py): what
    counts as an uploaded file, `exists`, `iter_data` and `read_range` on a GET of the
    object, and `delete`. The GET is given as its answer; the stream of its body as the
    successive results of `content.read`. */
module Files {
  import opened Common
  import opened Text
  import Retry
  import Buckets
  import Deletion

  /** The class of the value stored in the field: a GCloudFile, or some other file. */
  datatype FileKind = CloudFile | OtherFile

  /** The field's value: nothing, or a file with its `uri` and `filename`. */
  datatype FieldValue = NoFile | File(kind: FileKind, uri: Option<string>, filename: Option<string>)

  /** `_is_uploaded_file`: a GCloudFile whose uri is set. */
  predicate IsUploadedFile(file: FieldValue) {
    file.File? && file.kind == CloudFile && file.uri.Some?
  }

  // ---------------------------------------------------------------------------
  // exists
  // ---------------------------------------------------------------------------

  /** One attempt of `exists`: without an uploaded file no request is made; otherwise the
      object is there exactly when its GET answers 200. `status` is that answer, or the
      fault the request raised. */
  function ExistsAttempt(file: FieldValue, status: Result<int>): (r: Result<bool>)
    ensures !IsUploadedFile(file) ==> r == Success(false)
    ensures IsUploadedFile(file) ==> (r.Success? <==> status.Success?)
    ensures IsUploadedFile(file) && status.Success? ==> (r == Success(true) <==> status.value == 200)
    ensures IsUploadedFile(file) && status.Failure? ==> r == Failure(status.error)
  {
    if !IsUploadedFile(file) then Success(false)
    else match status
      case Failure(e) => Failure(e)
      case Success(s) => Success(s == 200)
  }

  /** `exists` with its decorator's four attempts; `statuses(i)` answers attempt i. */
  function Exists(file: FieldValue, statuses: nat -> Result<int>): (Result<bool>, nat) {
    Retry.Backoff(Retry.ExistsTries, (i: nat) => ExistsAttempt(file, statuses(i)))
  }

  /** `exists` asks at most four times, settles at the first answer it gets, and answers
      without a request when there is no uploaded file. */
  lemma ExistsVerdicts(file: FieldValue, statuses: nat -> Result<int>)
    ensures !IsUploadedFile(file) ==> Exists(file, statuses) == (Success(false), 1)
    ensures IsUploadedFile(file) && statuses(0).Success? ==>
      Exists(file, statuses) == (Success(statuses(0).value == 200), 1)
    ensures IsUploadedFile(file) && (forall i :: 0 <= i < Retry.ExistsTries ==>
              statuses(i).Failure? && Retriable(statuses(i).error)) ==>
      Exists(file, statuses) == (Failure(statuses(3).error), 4)
  {
    var attempt := (i: nat) => ExistsAttempt(file, statuses(i));
    assert attempt(0) == ExistsAttempt(file, statuses(0));
    if !IsUploadedFile(file) || statuses(0).Success? {
      Retry.BackoffSettlesAtFirst(Retry.ExistsTries, attempt, 0);
    } else if forall i :: 0 <= i < Retry.ExistsTries ==> statuses(i).Failure? && Retriable(statuses(i).error) {
      forall j | 0 <= j < Retry.ExistsTries
        ensures Retry.Retries(attempt(j))
      {
        assert attempt(j) == ExistsAttempt(file, statuses(j));
      }
      Retry.BackoffExhausts(Retry.ExistsTries, attempt);
      assert attempt(3) == ExistsAttempt(file, statuses(3));
    }
  }

  // ---------------------------------------------------------------------------
  // iter_data and read_range
  // ---------------------------------------------------------------------------

  /** The answer to the GET of an object: its status and, for an error, its body text. */
  datatype GetResponse = GetResponse(status: nat, text: string)

  /** How `iter_data` judges the GET's status before reading: 200 and 206 are read, 404
      is not-found, 401 (bad credentials) is reported as not-found too, and anything else
      raises GoogleCloudException with the status and the text. */
  function ReadStatus(resp: GetResponse): (r: Result<()>)
    ensures r.Success? <==> resp.status in {200, 206}
    ensures resp.status == 404 ==> r == Failure(NotFound("Google cloud file not found"))
    ensures resp.status == 401 ==> r == Failure(NotFound("Google cloud invalid credentials"))
    ensures resp.status !in {200, 206, 401, 404} ==>
      r.Failure? && r.error.GoogleCloud? && ParseInt(Split(r.error.message, ": ")[0]) == Some(resp.status)
  {
    if resp.status in {200, 206} then Success(())
    else if resp.status == 404 then Failure(NotFound("Google cloud file not found"))
    else if resp.status == 401 then Failure(NotFound("Google cloud invalid credentials"))
    else
      StatusPrefix(resp.status, resp.text);
      Failure(GoogleCloud(IntToString(resp.status) + ": " + resp.text))
  }

  /** The status leads a `"{status}: {text}"` message and reads back from it. */
  lemma StatusPrefix(status: nat, text: string)
    ensures ParseInt(Split(IntToString(status) + ": " + text, ": ")[0]) == Some(status)
  {
    StatusLeads(NatToString(status), text);
    ParseNatToString(status);
  }

  lemma {:induction false} StatusLeads(digits: string, text: string)
    requires AllDigits(digits)
    ensures Split(digits + ": " + text, ": ")[0] == digits
    decreases |digits|
  {
    var s := digits + ": " + text;
    if digits == [] {
      assert s[..2] == ": ";
    } else {
      assert s[..2] != ": " by { assert IsDigit(s[0]); }
      assert s[1..] == digits[1..] + ": " + text;
      StatusLeads(digits[1..], text);
      assert [s[0]] + digits[1..] == digits;
    }
  }

  /** What the `iter_data` generator gives its consumer: the chunks it yielded, then the
      fault it raised, if it raised one. */
  datatype Stream = Stream(chunks: seq<Bytes>, fault: Option<Fault>)

  /** The stream `iter_data` yields from the successive results of `content.read`: every
      read up to the first empty one, which ends the loop. A read that raises ends the
      stream with that fault after the chunks already yielded. Running out of reads ends
      it too. */
  function Chunks(received: seq<Result<Bytes>>): (r: Stream)
    ensures |r.chunks| <= |received|
    ensures forall i :: 0 <= i < |r.chunks| ==> received[i] == Success(r.chunks[i]) && |r.chunks[i]| > 0
    ensures |r.chunks| == |received| ==> r.fault.None?
    ensures |r.chunks| < |received| ==>
      if received[|r.chunks|].Success? then received[|r.chunks|].value == [] && r.fault.None?
      else r.fault == Some(received[|r.chunks|].error)
  {
    ChunksFrom(received, 0)
  }

  /** The stream from the `k`-th read on. */
  function ChunksFrom(received: seq<Result<Bytes>>, k: nat): (r: Stream)
    requires k <= |received|
    ensures k + |r.chunks| <= |received|
    ensures forall i :: 0 <= i < |r.chunks| ==> received[k + i] == Success(r.chunks[i]) && |r.chunks[i]| > 0
    ensures k + |r.chunks| == |received| ==> r.fault.None?
    ensures k + |r.chunks| < |received| ==>
      if received[k + |r.chunks|].Success? then received[k + |r.chunks|].value == [] && r.fault.None?
      else r.fault == Some(received[k + |r.chunks|].error)
    decreases |received| - k
  {
    if k == |received| then Stream([], None)
    else match received[k]
      case Failure(e) => Stream([], Some(e))
      case Success(chunk) =>
        if chunk == [] then Stream([], None)
        else
          var rest := ChunksFrom(received, k + 1);
          Stream([chunk] + rest.chunks, rest.fault)
  }

  /** The key `iter_data(uri)` reads: the given one, else the field's file's. */
  function ReadKey(uri: Option<string>, file: FieldValue): string
    requires uri.Some? || IsUploadedFile(file)
  {
    if uri.Some? then uri.value else file.uri.value
  }

  /** `iter_data(uri)` reads the body: there is a key and its GET answered 200 or 206. */
  predicate Readable(uri: Option<string>, file: FieldValue, get: string -> Result<GetResponse>) {
    (uri.Some? || IsUploadedFile(file)) &&
    get(ReadKey(uri, file)).Success? && get(ReadKey(uri, file)).value.status in {200, 206}
  }

  /** What `iter_data(uri)` gives its consumer. Without a `uri`, the field's file is read,
      and a field without an uploaded file raises FileNotFoundException. `get` answers the
      GET of the given key; a fault of the GET, or a status it does not read, is raised
      before anything is yielded. */
  function IterDataSpec(uri: Option<string>, file: FieldValue, get: string -> Result<GetResponse>,
                        received: seq<Result<Bytes>>): (r: Stream)
    ensures uri.None? && !IsUploadedFile(file) ==> r == Stream([], Some(FileNotFound("Trying to iterate data with no file")))
    ensures Readable(uri, file, get) ==> r == Chunks(received)
    ensures !Readable(uri, file, get) ==> r.chunks == [] && r.fault.Some?
    ensures (uri.Some? || IsUploadedFile(file)) && get(ReadKey(uri, file)).Failure? ==>
      r == Stream([], Some(get(ReadKey(uri, file)).error))
    ensures (uri.Some? || IsUploadedFile(file)) && get(ReadKey(uri, file)).Success? ==>
      var status := ReadStatus(get(ReadKey(uri, file)).value);
      status.Failure? ==> r == Stream([], Some(status.error))
  {
    if uri.None? && !IsUploadedFile(file) then Stream([], Some(FileNotFound("Trying to iterate data with no file")))
    else
      match get(ReadKey(uri, file))
      case Failure(e) => Stream([], Some(e))
      case Success(resp) =>
        match ReadStatus(resp)
        case Failure(e) => Stream([], Some(e))
        case Success(_) => Chunks(received)
  }

  /** Read without a uri, an uploaded file's stream is that of its own `uri`: the key of
      an uploaded file names the stored object. */
  lemma ReadsStoredObject(file: FieldValue, get: string -> Result<GetResponse>, received: seq<Result<Bytes>>)
    requires IsUploadedFile(file)
    ensures IterDataSpec(None, file, get, received) == IterDataSpec(file.uri, file, get, received)
    ensures Readable(None, file, get) <==>
      get(file.uri.value).Success? && get(file.uri.value).value.status in {200, 206}
  {
  }

  /** `iter_data`: check the answer, then read until an empty read. */
  method IterData(uri: Option<string>, file: FieldValue, get: string -> Result<GetResponse>, received: seq<Result<Bytes>>)
    returns (r: Stream)
    ensures r == IterDataSpec(uri, file, get, received)
  {
    var key: string;
    if uri.Some? {
      key := uri.value;
    } else if IsUploadedFile(file) {
      key := file.uri.value;
    } else {
      return Stream([], Some(FileNotFound("Trying to iterate data with no file")));
    }
    var answer := get(key);
    if answer.Failure? {
      return Stream([], Some(answer.error));
    }
    var status := ReadStatus(answer.value);
    if status.Failure? {
      return Stream([], Some(status.error));
    }
    r := ReadBody(received);
  }

  /** The read loop of `iter_data`: yield every non-empty read, stop at an empty one or at
      the first read that raises. */
  method ReadBody(received: seq<Result<Bytes>>) returns (r: Stream)
    ensures r == Chunks(received)
  {
    var chunks := [];
    var k := 0;
    while k < |received| && received[k].Success? && |received[k].value| > 0
      invariant k <= |received|
      invariant Chunks(received) == Stream(chunks + ChunksFrom(received, k).chunks, ChunksFrom(received, k).fault)
      decreases |received| - k
    {
      assert chunks + ([received[k].value] + ChunksFrom(received, k + 1).chunks)
          == (chunks + [received[k].value]) + ChunksFrom(received, k + 1).chunks;
      chunks := chunks + [received[k].value];
      k := k + 1;
    }
    var fault := None;
    if k < |received| && received[k].Failure? {
      fault := Some(received[k].error);
    }
    r := Stream(chunks, fault);
  }

  /** The Range header `read_range` builds: `bytes={start}-{end - 1}`. */
  function RangeHeader(start: int, end: int): string {
    "bytes=" + IntToString(start) + "-" + IntToString(end - 1)
  }

  /** For a non-empty range the header names its first and last byte. */
  lemma RangeHeaderBounds(start: nat, end: nat)
    requires start < end
    ensures RangeHeader(start, end)[..6] == "bytes="
    ensures Split(RangeHeader(start, end)[6..], "-") == [NatToString(start), NatToString(end - 1)]
    ensures ParseInt(Split(RangeHeader(start, end)[6..], "-")[1]) == Some(end - 1)
  {
    var tail := NatToString(start) + "-" + NatToString(end - 1);
    assert RangeHeader(start, end) == "bytes=" + tail;
    RangeTail(start, end - 1);
  }

  /** `{lo}-{hi}` splits at its dash into the two numbers. */
  lemma RangeTail(lo: nat, hi: nat)
    ensures Split(NatToString(lo) + "-" + NatToString(hi), "-") == [NatToString(lo), NatToString(hi)]
    ensures ParseInt(NatToString(hi)) == Some(hi)
  {
    DigitsHaveNo(NatToString(lo), '-');
    DigitsHaveNo(NatToString(hi), '-');
    SplitInTwo(NatToString(lo), '-', NatToString(hi));
    assert NatToString(lo) + "-" + NatToString(hi) == NatToString(lo) + ['-'] + NatToString(hi);
    ParseNatToString(hi);
  }

  /** `read_range(start, end)`: it hands its Range header to `iter_data`, which does not
      send it, so the whole object is read whatever the range. */
  method ReadRange(start: int, end: int, file: FieldValue, get: string -> Result<GetResponse>, received: seq<Result<Bytes>>)
    returns (r: Stream)
    ensures r == IterDataSpec(None, file, get, received)
  {
    var headers := map["Range" := RangeHeader(start, end)];
    r := IterData(None, file, get, received);
  }

  // ---------------------------------------------------------------------------
  // delete
  // ---------------------------------------------------------------------------

  /** `delete`: `delete_by_prefix` on the field's uri; an empty field has no `uri`. */
  function Delete(file: FieldValue, containerId: string,
                  lists: nat -> (map<string, string> -> Result<Buckets.Page>),
                  batches: nat -> (seq<string> -> Result<seq<int>>)): (r: Result<bool>)
    ensures file.NoFile? ==> r == Failure(AttributeError("'NoneType' object has no attribute 'uri'"))
    ensures file.File? ==> r == Deletion.DeleteByPrefix(file.uri, containerId, lists, batches).0
    ensures file.File? && !Deletion.CompoundKey(file.uri) ==> r == Failure(AttributeError("No valid uri"))
  {
    if file.NoFile? then Failure(AttributeError("'NoneType' object has no attribute 'uri'"))
    else
      Deletion.DeleteByPrefixQuery(file.uri, containerId, lists, batches);
      Deletion.DeleteByPrefix(file.uri, containerId, lists, batches).0
  }
}
