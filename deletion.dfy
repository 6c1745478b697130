/** Deleting objects (guillotina_gcloudstorage/storage.py): `delete_upload` for one object,
    `delete_blobs` for a batch, and `delete_by_prefix`, which lists one page under the
    prefix of a compound `prefix::suffix` key and batch-deletes the compound keys found. */
module Deletion {
  import opened Common
  import opened Text
  import Retry
  import Buckets

  // ---------------------------------------------------------------------------
  // delete_upload
  // ---------------------------------------------------------------------------

  /** One entry of the `error.errors` list of a JSON error body. */
  datatype ErrorEntry = ErrorEntry(reason: Option<string>)

  /** The answer to a DELETE of one object: its status, the `error.errors` list of its body
      (empty when the body is not JSON or carries no such list), and the body as the error
      message renders it. */
  datatype DeleteResponse = DeleteResponse(status: int, errors: seq<ErrorEntry>, dumped: string)

  /** The answers `delete_upload` accepts without raising. */
  predicate QuietDelete(resp: DeleteResponse) {
    || resp.status in {200, 204, 404}
    || (resp.status == 403 && |resp.errors| >= 1 && resp.errors[0].reason.Some?)
  }

  /** One attempt of `delete_upload(uri)`; `reply` is how the DELETE call ended. */
  function DeleteUploadAttempt(uri: Option<string>, reply: Result<DeleteResponse>): (r: Result<()>)
    ensures r.Success? <==> uri.Some? && reply.Success? && QuietDelete(reply.value)
    ensures uri.None? ==> r == Failure(AttributeError("No valid uri"))
    ensures uri.Some? && reply.Failure? ==> r == Failure(reply.error)
    ensures uri.Some? && reply.Success? && reply.value.status == 403 && |reply.value.errors| >= 1 && reply.value.errors[0].reason.None? ==>
      r == Failure(KeyError("reason"))
    ensures uri.Some? && reply.Success? && !QuietDelete(reply.value) && !(reply.value.status == 403 && |reply.value.errors| >= 1) ==>
      r == Failure(GoogleCloud(IntToString(reply.value.status) + ": " + reply.value.dumped))
  {
    if uri.None? then Failure(AttributeError("No valid uri"))
    else match reply
      case Failure(e) => Failure(e)
      case Success(resp) =>
        if resp.status in {200, 204, 404} then Success(())
        else if resp.status == 403 && |resp.errors| >= 1 then
          // a retentionPolicyNotMet reason returns early; any other reason falls through
          // the conditional and returns as well
          if resp.errors[0].reason.None? then Failure(KeyError("reason")) else Success(())
        else Failure(GoogleCloud(IntToString(resp.status) + ": " + resp.dumped))
  }

  /** `delete_upload` with its decorator's ten attempts; `server(i)` answers attempt i. */
  function DeleteUploadCall(uri: Option<string>, server: nat -> Result<DeleteResponse>): (Result<()>, nat) {
    Retry.Backoff(Retry.DefaultTries, i => DeleteUploadAttempt(uri, server(i)))
  }

  /** Deleting an object that is already gone succeeds at the first attempt, and so does
      a 403 carrying an error list, whatever its reason (retentionPolicyNotMet or not). */
  lemma DeleteUploadQuietAnswers(u: string, server: nat -> Result<DeleteResponse>)
    requires server(0).Success? && QuietDelete(server(0).value)
    ensures DeleteUploadCall(Some(u), server) == (Success(()), 1)
  {
    var attempt := (i: nat) => DeleteUploadAttempt(Some(u), server(i));
    assert attempt(0) == DeleteUploadAttempt(Some(u), server(0));
    Retry.BackoffSettlesAtFirst(Retry.DefaultTries, attempt, 0);
  }

  /** A missing uri is refused at once; other unexpected statuses are retried, ten times at
      most, and then raised as GoogleCloudException. */
  lemma DeleteUploadFailures(uri: Option<string>, server: nat -> Result<DeleteResponse>)
    ensures uri.None? ==> DeleteUploadCall(uri, server) == (Failure(AttributeError("No valid uri")), 1)
    ensures uri.Some? && (forall i :: 0 <= i < Retry.DefaultTries ==>
              server(i).Success? && !QuietDelete(server(i).value) && server(i).value.status != 403) ==>
      DeleteUploadCall(uri, server).1 == Retry.DefaultTries &&
      DeleteUploadCall(uri, server).0.Failure? && DeleteUploadCall(uri, server).0.error.GoogleCloud?
  {
    var attempt := (i: nat) => DeleteUploadAttempt(uri, server(i));
    if uri.None? {
      assert attempt(0) == DeleteUploadAttempt(uri, server(0));
      Retry.BackoffSettlesAtFirst(Retry.DefaultTries, attempt, 0);
    } else if forall i :: 0 <= i < Retry.DefaultTries ==>
              server(i).Success? && !QuietDelete(server(i).value) && server(i).value.status != 403 {
      forall j | 0 <= j < Retry.DefaultTries
        ensures Retry.Retries(attempt(j))
      {
        assert attempt(j) == DeleteUploadAttempt(uri, server(j));
      }
      Retry.BackoffExhausts(Retry.DefaultTries, attempt);
    }
  }

  // ---------------------------------------------------------------------------
  // delete_blobs
  // ---------------------------------------------------------------------------

  /** The per-item statuses `delete_blobs` counts as deleted: 200 to 300, both included. */
  predicate Deleted(status: int) {
    200 <= status <= 300
  }

  /** The keys, in input order, whose batch answer was (`ok`) or was not (`!ok`) a deletion,
      among the first |statuses| keys. */
  function Select(keys: seq<string>, statuses: seq<int>, ok: bool): (r: seq<string>)
    requires |statuses| <= |keys|
  {
    Picked(keys, statuses, ok, |statuses|)
  }

  /** The same, among the first `m` answers only. */
  function Picked(keys: seq<string>, statuses: seq<int>, ok: bool, m: nat): seq<string>
    requires m <= |statuses| && m <= |keys|
  {
    if m == 0 then []
    else Picked(keys, statuses, ok, m - 1) + Keep(keys[m - 1], statuses[m - 1], ok)
  }

  /** The key of one answer, on the side its status belongs to. */
  function Keep(key: string, status: int, ok: bool): seq<string> {
    if Deleted(status) == ok then [key] else []
  }

  /** Of the two sides, exactly one keeps the key. */
  lemma KeepOnce(key: string, status: int)
    ensures multiset(Keep(key, status, true)) + multiset(Keep(key, status, false)) == multiset([key])
  {
  }

  /** `delete_blobs`: answer `statuses[i]` belongs to `keys[i]`; an answer without a key
      raises IndexError. */
  method DeleteBlobs(keys: seq<string>, statuses: seq<int>) returns (r: Result<(seq<string>, seq<string>)>)
    ensures |statuses| <= |keys| ==> r == Success((Select(keys, statuses, true), Select(keys, statuses, false)))
    ensures |statuses| > |keys| ==> r == Failure(IndexError)
  {
    var successKeys: seq<string> := [];
    var failedKeys: seq<string> := [];
    var idx := 0;
    while idx < |statuses|
      invariant idx <= |statuses| && idx <= |keys|
      invariant successKeys == Picked(keys, statuses, true, idx)
      invariant failedKeys == Picked(keys, statuses, false, idx)
    {
      if idx >= |keys| {
        return Failure(IndexError);
      }
      var key := keys[idx];
      if 200 <= statuses[idx] <= 300 {
        successKeys := successKeys + [key];
      } else {
        failedKeys := failedKeys + [key];
      }
      idx := idx + 1;
    }
    return Success((successKeys, failedKeys));
  }

  /** Every answered key lands in exactly one of the two lists. */
  lemma {:induction false} PickedPartitions(keys: seq<string>, statuses: seq<int>, m: nat)
    requires m <= |statuses| <= |keys|
    ensures multiset(Picked(keys, statuses, true, m)) + multiset(Picked(keys, statuses, false, m)) == multiset(keys[..m])
  {
    if m > 0 {
      PickedPartitions(keys, statuses, m - 1);
      KeepOnce(keys[m - 1], statuses[m - 1]);
      PrefixGrows(keys, m);
      PartitionGrows(Picked(keys, statuses, true, m - 1), Picked(keys, statuses, false, m - 1), keys[..m - 1],
                     Keep(keys[m - 1], statuses[m - 1], true), Keep(keys[m - 1], statuses[m - 1], false), keys[m - 1]);
    }
  }

  lemma PrefixGrows(keys: seq<string>, m: nat)
    requires 0 < m <= |keys|
    ensures keys[..m] == keys[..m - 1] + [keys[m - 1]]
  {
  }

  /** Keys added to the two sides of a partition, one of them, are that key added to the
      whole. */
  lemma PartitionGrows(yes: seq<string>, no: seq<string>, whole: seq<string>,
                       moreYes: seq<string>, moreNo: seq<string>, key: string)
    requires multiset(yes) + multiset(no) == multiset(whole)
    requires multiset(moreYes) + multiset(moreNo) == multiset([key])
    ensures multiset(yes + moreYes) + multiset(no + moreNo) == multiset(whole + [key])
  {
  }

  /** With one answer per key, the two lists partition the keys. */
  lemma DeleteBlobsPartition(keys: seq<string>, statuses: seq<int>)
    requires |statuses| == |keys|
    ensures multiset(Select(keys, statuses, true)) + multiset(Select(keys, statuses, false)) == multiset(keys)
  {
    PickedPartitions(keys, statuses, |statuses|);
    assert keys[..|statuses|] == keys;
  }

  /** Keys [a, b, c] answered 200, 404, 200 split into [a, c] and [b]; 300 counts as deleted. */
  lemma DeleteBlobsExample()
    ensures Select(["a", "b", "c"], [200, 404, 200], true) == ["a", "c"]
    ensures Select(["a", "b", "c"], [200, 404, 200], false) == ["b"]
    ensures Select(["a"], [300], true) == ["a"]
  {
    var keys := ["a", "b", "c"];
    var statuses := [200, 404, 200];
    assert Picked(keys, statuses, true, 1) == ["a"];
    assert Picked(keys, statuses, true, 2) == ["a"];
    assert Picked(keys, statuses, false, 1) == [];
    assert Picked(keys, statuses, false, 2) == ["b"];
    assert Picked(["a"], [300], true, 1) == ["a"];
  }

  // ---------------------------------------------------------------------------
  // delete_by_prefix
  // ---------------------------------------------------------------------------

  /** `uri and "::" in uri` */
  predicate CompoundKey(uri: Option<string>) {
    uri.Some? && uri.value != "" && Contains(uri.value, "::")
  }

  /** `uri.split("::")[0]` */
  function KeyPrefix(uri: string): string {
    Split(uri, "::")[0]
  }

  /** The prefix is the text before the first `::` of a compound key. */
  lemma KeyPrefixBeforeSeparator(uri: string)
    requires Contains(uri, "::")
    ensures !Contains(KeyPrefix(uri), "::")
    ensures exists rest :: uri == KeyPrefix(uri) + "::" + rest
  {
    var pieces := Split(uri, "::");
    SplitHeadHasNoSeparator(uri, "::");
    SplitFindsSeparator(uri, "::");
    JoinSplit(uri, "::");
    assert uri == KeyPrefix(uri) + "::" + Join(pieces[1..], "::");
  }

  /** `[blob.name for blob in blobs if "::" in blob.name]`; a blob without a name makes the
      test raise TypeError. */
  function CandidateKeys(blobs: seq<Buckets.BlobMetadata>): (r: Result<seq<string>>)
    ensures r.Success? <==> forall i :: 0 <= i < |blobs| ==> blobs[i].name.Some?
    ensures r.Success? ==> forall k :: k in r.value ==> Contains(k, "::")
    ensures r.Success? ==> forall i :: 0 <= i < |blobs| ==>
      (blobs[i].name.value in r.value <==> Contains(blobs[i].name.value, "::"))
    ensures r.Success? ==> forall k :: k in r.value ==> exists i :: 0 <= i < |blobs| && blobs[i].name == Some(k)
    decreases |blobs|
  {
    if blobs == [] then Success([])
    else if blobs[0].name.None? then Failure(TypeError)
    else match CandidateKeys(blobs[1..])
      case Failure(e) => Failure(e)
      case Success(rest) =>
        var name := blobs[0].name.value;
        assert forall k :: k in rest ==> exists i :: 1 <= i < |blobs| && blobs[i].name == Some(k) by {
          forall k | k in rest ensures exists i :: 1 <= i < |blobs| && blobs[i].name == Some(k) {
            var i :| 0 <= i < |blobs[1..]| && blobs[1..][i].name == Some(k);
            assert blobs[i + 1].name == Some(k);
          }
        }
        Success(KeyOf(name) + rest)
  }

  /** The key one named blob contributes: its name when that contains `::`. */
  function KeyOf(name: string): seq<string> {
    if Contains(name, "::") then [name] else []
  }

  /** The filter keeps the blobs' order: the keys of two listings one after the other are
      the keys of the first followed by those of the second. */
  lemma {:induction false} CandidateKeysAppend(a: seq<Buckets.BlobMetadata>, b: seq<Buckets.BlobMetadata>)
    requires CandidateKeys(a).Success? && CandidateKeys(b).Success?
    ensures CandidateKeys(a + b) == Success(CandidateKeys(a).value + CandidateKeys(b).value)
    decreases |a|
  {
    if a != [] {
      var ab := a + b;
      assert ab[0] == a[0] && ab[1..] == a[1..] + b;
      CandidateKeysStep(a);
      CandidateKeysAppend(a[1..], b);
      CandidateKeysCons(ab);
      ConcatAssoc(KeyOf(a[0].name.value), CandidateKeys(a[1..]).value, CandidateKeys(b).value);
    } else {
      assert a + b == b;
      assert CandidateKeys(a) == Success([]);
      assert [] + CandidateKeys(b).value == CandidateKeys(b).value;
    }
  }

  lemma ConcatAssoc(x: seq<string>, y: seq<string>, z: seq<string>)
    ensures x + (y + z) == (x + y) + z
  {
  }

  /** The first blob's key, then the keys of the rest. */
  lemma CandidateKeysStep(blobs: seq<Buckets.BlobMetadata>)
    requires blobs != [] && CandidateKeys(blobs).Success?
    ensures blobs[0].name.Some? && CandidateKeys(blobs[1..]).Success?
    ensures CandidateKeys(blobs) == Success(KeyOf(blobs[0].name.value) + CandidateKeys(blobs[1..]).value)
  {
  }

  /** A named blob in front of a listing that filters adds its key in front. */
  lemma CandidateKeysCons(blobs: seq<Buckets.BlobMetadata>)
    requires blobs != [] && blobs[0].name.Some? && CandidateKeys(blobs[1..]).Success?
    ensures CandidateKeys(blobs) == Success(KeyOf(blobs[0].name.value) + CandidateKeys(blobs[1..]).value)
  {
  }

  /** One blob is kept exactly when its name contains `::`. */
  lemma CandidateKeysOne(blob: Buckets.BlobMetadata)
    requires blob.name.Some?
    ensures CandidateKeys([blob]) == Success(if Contains(blob.name.value, "::") then [blob.name.value] else [])
  {
    var one := [blob];
    assert one[1..] == [];
    assert CandidateKeys(one[1..]) == Success([]);
    CandidateKeysCons(one);
    assert KeyOf(blob.name.value) + [] == KeyOf(blob.name.value);
  }

  /** The compound keys `delete_by_prefix` finds under the prefix of `uri`: one page of
      `get_blobs`, filtered on `::`. */
  function Candidates(uri: string, containerId: string,
                      list: map<string, string> -> Result<Buckets.Page>): Result<seq<string>> {
    match Buckets.GetBlobs(list(ListingParams(uri, containerId)))
    case Failure(e) => Failure(e)
    case Success(page) => CandidateKeys(page.0)
  }

  /** One attempt of `delete_by_prefix(uri)`. `list` answers the listing request by its
      query parameters. `batch` answers `delete_blobs(keys, bucket_name=get_bucket_name())`
      with the per-key statuses, or with the fault raised by the bucket-name resolution,
      the client or the batch request. */
  function DeleteByPrefixAttempt(uri: Option<string>, containerId: string,
                                 list: map<string, string> -> Result<Buckets.Page>,
                                 batch: seq<string> -> Result<seq<int>>): (r: Result<bool>)
    ensures !CompoundKey(uri) ==> r == Failure(AttributeError("No valid uri"))
    ensures CompoundKey(uri) && Candidates(uri.value, containerId, list).Failure? ==>
      r == Failure(Candidates(uri.value, containerId, list).error)
    ensures r == Success(false) <==>
      CompoundKey(uri) && Candidates(uri.value, containerId, list) == Success([])
    ensures r == Success(true) <==>
      CompoundKey(uri) && Candidates(uri.value, containerId, list).Success? &&
      var keys := Candidates(uri.value, containerId, list).value;
      |keys| > 0 && batch(keys).Success? && |batch(keys).value| <= |keys| &&
      Select(keys, batch(keys).value, false) == []
    ensures CompoundKey(uri) && Candidates(uri.value, containerId, list).Success? ==>
      var keys := Candidates(uri.value, containerId, list).value;
      |keys| > 0 && batch(keys).Failure? ==> r == Failure(batch(keys).error)
    ensures CompoundKey(uri) && Candidates(uri.value, containerId, list).Success? ==>
      var keys := Candidates(uri.value, containerId, list).value;
      |keys| > 0 && batch(keys).Success? && |batch(keys).value| <= |keys| &&
      |Select(keys, batch(keys).value, false)| > 0 ==>
        r == Failure(GoogleCloud("Failed to delete " + Select(keys, batch(keys).value, false)[0]))
    ensures CompoundKey(uri) && Candidates(uri.value, containerId, list).Success? ==>
      var keys := Candidates(uri.value, containerId, list).value;
      |keys| > 0 && batch(keys).Success? && |batch(keys).value| > |keys| ==> r == Failure(IndexError)
  {
    if !CompoundKey(uri) then Failure(AttributeError("No valid uri"))
    else match Candidates(uri.value, containerId, list)
      case Failure(e) => Failure(e)
      case Success(keys) =>
        if |keys| == 0 then Success(false)
        else match batch(keys)
          case Failure(e) => Failure(e)
          case Success(statuses) =>
            if |statuses| > |keys| then Failure(IndexError)
            else
              var failed := Select(keys, statuses, false);
              if |failed| > 0 then Failure(GoogleCloud("Failed to delete " + failed[0]))
              else Success(true)
  }

  /** The listing request of `delete_by_prefix`: `get_blobs(prefix=...)` with no page token. */
  function ListingParams(uri: string, containerId: string): map<string, string> {
    Buckets.PageParams(None, Some(KeyPrefix(uri)), containerId)
  }

  /** `delete_by_prefix` with its decorator's ten attempts. A failed deletion raises the
      retriable GoogleCloudException, so the listing and the batch are tried again. */
  function DeleteByPrefix(uri: Option<string>, containerId: string,
                          lists: nat -> (map<string, string> -> Result<Buckets.Page>),
                          batches: nat -> (seq<string> -> Result<seq<int>>)): (Result<bool>, nat) {
    Retry.Backoff(Retry.DefaultTries, i => DeleteByPrefixAttempt(uri, containerId, lists(i), batches(i)))
  }

  /** A uri that is empty, missing or without `::` is refused at once; a compound key is
      looked up under the text before its first `::`. */
  lemma DeleteByPrefixQuery(uri: Option<string>, containerId: string,
                            lists: nat -> (map<string, string> -> Result<Buckets.Page>),
                            batches: nat -> (seq<string> -> Result<seq<int>>))
    ensures !CompoundKey(uri) ==> DeleteByPrefix(uri, containerId, lists, batches) == (Failure(AttributeError("No valid uri")), 1)
    ensures CompoundKey(uri) && KeyPrefix(uri.value) != "" ==>
      ListingParams(uri.value, containerId)["prefix"] == KeyPrefix(uri.value) &&
      "pageToken" !in ListingParams(uri.value, containerId)
    ensures CompoundKey(uri) && KeyPrefix(uri.value) == "" ==>
      ListingParams(uri.value, containerId)["prefix"] == containerId + "/"
  {
    if !CompoundKey(uri) {
      var attempt := (i: nat) => DeleteByPrefixAttempt(uri, containerId, lists(i), batches(i));
      assert attempt(0) == DeleteByPrefixAttempt(uri, containerId, lists(0), batches(0));
      Retry.BackoffSettlesAtFirst(Retry.DefaultTries, attempt, 0);
    }
  }
}
