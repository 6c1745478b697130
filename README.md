# Google Cloud Storage file manager: a verified model

This project models the file manager that stores a content field's file in Google Cloud
Storage through a **resumable upload**, in its current form
(`guillotina_gcloudstorage/storage.py`) and in its earlier form
(`pserver/gcloudstorage/storage.py`). Every call to the storage API, the storage SDK or
the request body is given to the model as the answer it returns, or the fault it raises.
The model covers what the file manager does with those answers: the upload session's
state, the offsets and ranges it checks, the retries, the faults it raises, and the data
it hands on. It then proves properties of that behaviour.

Modules, one file each:

- `common.dfy` (`Common`): `Option`, `Result` (a value or the fault a call raised), the
  closed set of faults, and `RETRIABLE_EXCEPTIONS`.
- `text.dfy` (`Text`): the Python string operations the code relies on: `str(n)`,
  `int(s)`, `s.split(sep)`, `sep.join(parts)`, `sub in s` and ASCII `lower()`.
- `retry.dfy` (`Retry`): the `backoff.on_exception` decorators. A decorated operation is
  retried only on a retriable fault, up to its attempt cap (10, or 4 for `exists`). A pure
  definition and a loop are proved to agree.
- `buckets.dfy` (`Buckets`): `GCloudBlobStore`. It covers:
  - bucket-name resolution, with its cache (`BlobStore` class);
  - get-or-create and label reconciliation (`Bucket` class);
  - page listing, `get_blobs`, `iterate_bucket` and `delete_bucket`.
- `deletion.dfy` (`Deletion`): `delete_upload`, the `delete_blobs` loop and
  `delete_by_prefix`.
- `files.dfy` (`Files`): `_is_uploaded_file`, `exists`, `iter_data`, `read_range` and
  `delete`.
- `session.dfy` (`Session`): the upload data manager's fields as a class, plus `start`,
  `finish` and `copy`.
- `upload.dfy` (`ResumableUpload`): `_append` and the `append` loop. `_append` covers the
  headers of one PUT, the classification of its answer, and the retries. The `append`
  loop checks each 308's `Range` against the local offset and stops at the first 200/201.
- `legacy.dfy` (`Legacy`): the earlier `GCloudFile`, whose methods update its own fields
  (a class), and the `upload` loop that feeds it the request body in 512 KiB pieces. Also
  `json_converter`.

Behaviours of the code that the model keeps as written:

- `read_range` builds a `Range` header and hands it to `iter_data`. `iter_data` never
  sends it, so the whole object is read whatever the range.
- `delete_upload` returns quietly on a 403 whose body lists at least one error, whatever
  the reason. Only `retentionPolicyNotMet` returns explicitly; any other reason falls
  through the conditional.
- `finish` swallows only a GoogleCloudException from deleting the previous object. It
  sets `uri` from `upload_file_id` and clears the latter. It leaves `resumable_uri` and
  `current_upload` as they were.
- `start` deletes a pending upload through `delete_upload`, with that call's own
  retries. A fault from that deletion ends the attempt. `start` retries up to ten times.
- `delete_by_prefix` lists a single page under the prefix. A failed batch deletion raises
  the retriable GoogleCloudException, so the whole operation is tried again.
- `delete_blobs` counts statuses 200 to 300, both included, as deleted.
- In the earlier `upload`, `appendData` asserts the status, so the loop's retry counter
  can never reach its limit.

## Model

| member | source | states |
|---|---|---|
| Retry.Attempts | guillotina_gcloudstorage/storage.py:94-101 | the deciding attempt is the last one made. Every earlier attempt raised a retriable fault. An outcome reached before the cap is a success or a non-retriable fault. At most the cap of attempts is made |
| Retry.Run | guillotina_gcloudstorage/storage.py:197-198 | the decorator as a loop: it attempts until an answer settles it or the cap is reached, ending as `Backoff` does, with the same attempt count |
| Retry.BackoffSettlesAtFirst | guillotina_gcloudstorage/storage.py:244-245 | the first attempt that is not retried decides the outcome, after exactly that many attempts |
| Retry.BackoffExhausts | guillotina_gcloudstorage/storage.py:300-302 | an operation that raises a retriable fault on every attempt is attempted exactly `max_tries` times, and the last fault is raised |
| Buckets.Delimiter | guillotina_gcloudstorage/storage.py:591-594 | the delimiter is `.` exactly when the base bucket name contains a dot, `_` otherwise |
| Buckets.Lookup | guillotina_gcloudstorage/storage.py:596-600 | a field name is replaced iff it is one of the three keywords `container`, `delimiter`, `base`. An empty or all-digit name is positional and raises IndexError; any other name raises KeyError naming it |
| Buckets.FormatRenders | guillotina_gcloudstorage/storage.py:596-600 | a template made of brace-free literal text and the three keyword fields formats successfully to the literals and the keywords' values, in template order |
| Buckets.FormatLiteral | guillotina_gcloudstorage/storage.py:596-600 | literal text without braces is copied unchanged in front of the formatted rest |
| Buckets.FormatField | guillotina_gcloudstorage/storage.py:596-600 | a field `{name}` with a plain name is replaced by the keyword's value, or raises the IndexError or KeyError of the lookup, and formatting goes on after the `}` |
| Buckets.FormatStrayBrace | guillotina_gcloudstorage/storage.py:596-600 | a single `}` and a `{` never closed raise ValueError |
| Buckets.DefaultFormat | guillotina_gcloudstorage/storage.py:484-486 | formatting the default `{container}{delimiter}{base}` succeeds with the three parts concatenated in that order |
| Buckets.DefaultFormatText | guillotina_gcloudstorage/storage.py:484-486 | the default format is exactly the text `{container}{delimiter}{base}` |
| Buckets.OverrideIsFinal | guillotina_gcloudstorage/storage.py:576-589 | a truthy override is returned when accessible, otherwise PreconditionFailed is raised; either way at the first attempt, with no fall-back to the naming scheme |
| Buckets.DefaultBucketName | guillotina_gcloudstorage/storage.py:591-614 | without an override the name is lower(container id) + delimiter + base. A cached name is returned without get-or-create; an uncached one only when get-or-create succeeds |
| Buckets.BlobStore.constructor | guillotina_gcloudstorage/storage.py:480-491 | settings defaults: format `{container}{delimiter}{base}`, no labels, the given uniform-access flag, and an empty bucket cache |
| Buckets.BlobStore.GetBucketName | guillotina_gcloudstorage/storage.py:570-614 | the outcome is that of up to ten resolution attempts. The cache grows by the resolved name only when it was resolved through get-or-create and was not cached already |
| Buckets.GetOrCreate | guillotina_gcloudstorage/storage.py:525-534 | existing bucket iff the get succeeds; created iff the get is NotFound and the create succeeds; created by a racer iff the create then conflicts and the second get succeeds. A get failing other than with NotFound raises its fault; after NotFound, a create failing other than with Conflict raises its fault; after Conflict, a failing second get raises its fault |
| Buckets.ReconciledLabelsContent | guillotina_gcloudstorage/storage.py:536-543 | the reconciled labels hold every configured label, the container label (unless configuration overrides it) and every other label the bucket had, and no other key |
| Buckets.ReconcileIdempotent | guillotina_gcloudstorage/storage.py:541-548 | once patched, the same container and configuration ask for no further patch |
| Buckets.PatchVerdict | guillotina_gcloudstorage/storage.py:554-567 | a patch fails the call iff it raised something other than Conflict, TooManyRequests, ServiceUnavailable or Forbidden, and then with that fault |
| Buckets.ResolveEnsuresBucket | guillotina_gcloudstorage/storage.py:525-614 | with `_get_or_create_bucket` composed of get-or-create and the label reconciliation (`EnsureBucket`), an uncached bucket name resolves iff the bucket was obtained and any needed patch was accepted or refused with one of the four tolerated faults |
| Buckets.Bucket.Reconcile | guillotina_gcloudstorage/storage.py:536-568 | the bucket is patched iff its labels or uniform-access flag would change. A patched bucket carries the reconciled labels and the configured flag; an unpatched one is untouched |
| Buckets.PageParams | guillotina_gcloudstorage/storage.py:637-643 | `prefix` is the given prefix when non-empty, else `{container id}/`. `pageToken` is present iff a non-empty token was given. There are no other parameters |
| Buckets.FetchPage | guillotina_gcloudstorage/storage.py:650-653 | a page is accepted iff the request answered 200 |
| Buckets.ToBlob | guillotina_gcloudstorage/storage.py:692-698 | an item converts iff it has a creation time and a size `int` can read, and then into the blob with the item's name, bucket, creation time and that size. A missing time or size raises TypeError |
| Buckets.ToBlobs | guillotina_gcloudstorage/storage.py:692-700 | the page converts iff every item does. The result has one entry per item, in order, each the item's own name, bucket, creation time and parsed size |
| Buckets.GetBlobs | guillotina_gcloudstorage/storage.py:685-703 | a page request that fails raises its fault. The call succeeds iff the page answered 200 and every item converts; it then gives, in order, one blob per item carrying that item's fields, and the page's `nextPageToken` |
| Buckets.IterateBucket | guillotina_gcloudstorage/storage.py:620-635 | the loop yields the items and requests the tokens of `IterateSpec`, stopping as it does |
| Buckets.IterateChained | guillotina_gcloudstorage/storage.py:620-635 | over pages chained by next-page tokens, every page is requested once, all items are yielded in page order, and the enumeration ends normally |
| Buckets.DeleteBucket | guillotina_gcloudstorage/storage.py:743-746 | succeeds iff the force delete does. ValueError becomes DeleteStorageException; any other fault propagates |
| Deletion.DeleteUploadAttempt | guillotina_gcloudstorage/storage.py:267-298 | quiet iff a uri is given and the DELETE answers 200/204/404, or 403 with a reasoned error entry. Without a uri: AttributeError. A 403 entry without a reason: KeyError. Other statuses: GoogleCloudException with status and body |
| Deletion.DeleteUploadQuietAnswers | guillotina_gcloudstorage/storage.py:282-294 | an object already gone, or one refused with a 403 error list, is settled at the first attempt |
| Deletion.DeleteUploadFailures | guillotina_gcloudstorage/storage.py:266-298 | a missing uri is refused at once. Error statuses on every attempt are retried ten times and raised as GoogleCloudException |
| Deletion.DeleteBlobs | guillotina_gcloudstorage/storage.py:721-730 | with at most one answer per key, the success and failure lists are the answered keys whose status is, or is not, in 200..300, in key order. An answer beyond the keys raises IndexError |
| Deletion.PickedPartitions | guillotina_gcloudstorage/storage.py:723-728 | every answered key lands in exactly one of the two lists (multiset union equals the answered prefix of the keys) |
| Deletion.DeleteBlobsPartition | guillotina_gcloudstorage/storage.py:705-730 | with one answer per key, the two lists are a partition of the keys |
| Deletion.DeleteBlobsExample | guillotina_gcloudstorage/storage.py:725-728 | on concrete answers 200, 404, 200 the lists are [a, c] and [b]; 300 counts as deleted |
| Deletion.KeyPrefixBeforeSeparator | guillotina_gcloudstorage/storage.py:248-249 | the prefix of a compound key contains no `::`, and the key is that prefix, `::`, then the rest |
| Deletion.CandidateKeys | guillotina_gcloudstorage/storage.py:251 | the filter succeeds iff every blob has a name. Every kept key is the name of a blob, and a blob's name is kept iff it contains `::` |
| Deletion.CandidateKeysAppend | guillotina_gcloudstorage/storage.py:251 | the filter keeps the blobs' order: the keys of two listings in a row are the first listing's keys followed by the second's |
| Deletion.CandidateKeysOne | guillotina_gcloudstorage/storage.py:251 | a single named blob gives its name when it contains `::`, and no key otherwise |
| Deletion.DeleteByPrefixAttempt | guillotina_gcloudstorage/storage.py:245-264 | a non-compound uri raises AttributeError. Listing faults propagate. No candidates gives False. With candidates, a fault of the batch (bucket-name resolution, client or request) propagates, more statuses than keys raise IndexError, and otherwise True iff every key was deleted, else GoogleCloudException naming the first failed key |
| Deletion.DeleteByPrefixQuery | guillotina_gcloudstorage/storage.py:244-264 | a non-compound uri is refused at the first attempt. A compound key lists under the text before its first `::` (or the container prefix when that is empty), with no page token |
| Files.ExistsAttempt | guillotina_gcloudstorage/storage.py:379-389 | without an uploaded file the answer is False without a request. Otherwise the answer is whether the GET answered 200, and a fault of the GET propagates |
| Files.ExistsVerdicts | guillotina_gcloudstorage/storage.py:378-389 | `exists` settles at the first answer it gets. Retriable faults on all four attempts raise the fourth one |
| Files.ReadStatus | guillotina_gcloudstorage/storage.py:160-177 | 200 and 206 are read. 404 is not-found and so is 401 (invalid credentials). Any other status raises GoogleCloudException, whose message starts with that status |
| Files.StatusPrefix | guillotina_gcloudstorage/storage.py:177 | the status reads back from the `{status}: {text}` message |
| Files.Chunks | guillotina_gcloudstorage/storage.py:178-183 | the yielded chunks are the reads in order, all non-empty. The generator stops at the first empty read, or raises the fault of the first read that fails, or ends with the reads |
| Files.IterDataSpec | guillotina_gcloudstorage/storage.py:144-177 | without a uri and without an uploaded file: FileNotFound, nothing yielded. Otherwise the GET of that key answering 200/206 yields the body's chunks as `Chunks` does; a fault of the GET, or of the status check, is raised with nothing yielded |
| Files.ReadsStoredObject | guillotina_gcloudstorage/storage.py:114-115 | without a uri, an uploaded file is read from its own stored uri, exactly as if that uri were given, and readable iff that GET answers 200 or 206 |
| Files.IterData | guillotina_gcloudstorage/storage.py:144-183 | the generator yields and ends as `IterDataSpec` says |
| Files.ReadBody | guillotina_gcloudstorage/storage.py:178-183 | the read loop yields the chunks, and ends with the fault, that `Chunks` gives for the reads |
| Files.RangeHeaderBounds | guillotina_gcloudstorage/storage.py:193 | for a non-empty range the header is `bytes=` followed by the first byte and the last byte (end - 1) |
| Files.ReadRange | guillotina_gcloudstorage/storage.py:188-195 | the result is that of `iter_data` on the field's file, whatever the range |
| Files.Delete | guillotina_gcloudstorage/storage.py:433-435 | an empty field raises AttributeError. Otherwise the result is `delete_by_prefix` on the file's uri, and a non-compound uri is refused |
| Session.UploadDataManager.Record | guillotina_gcloudstorage/storage.py:424-431 | the destination describes the copied object: its type, size, new uri and filename. The session fields are unchanged |
| Session.SizeText | guillotina_gcloudstorage/storage.py:229 | `str(dm.size)` reads back as the size, and is `None` exactly when the size is unknown |
| Session.StartHeaders | guillotina_gcloudstorage/storage.py:226-233 | exactly four headers: the content type, the upload length (or `None`), the JSON content type, and the metadata length |
| Session.StartAttempt | guillotina_gcloudstorage/storage.py:205-242 | a failed deletion of the pending upload ends the attempt. It opens iff that deletion succeeds and the POST answers 200 with a Location, taking the generated name and the Location. A non-200 raises GoogleCloudException; no Location raises KeyError |
| Session.StartVerdicts | guillotina_gcloudstorage/storage.py:197-242 | an attempt that opens the session settles `start` at once. A POST refused on all ten attempts raises GoogleCloudException after ten attempts |
| Session.Start | guillotina_gcloudstorage/storage.py:198-242 | on success the upload id, resumable uri and a zero offset are set together (`Started`). On failure `dm` keeps all its fields. The stored uri, type, size and filename never change |
| Session.Cleanup | guillotina_gcloudstorage/storage.py:366-375 | only an uploaded file that the clean-up policy lets go is deleted. The clean-up fails iff that deletion raises something other than GoogleCloudException, and with that fault |
| Session.CleanupSwallowsStatusErrors | guillotina_gcloudstorage/storage.py:369-375 | a stored object whose deletion keeps being refused with an error status does not make `finish` fail |
| Session.Finish | guillotina_gcloudstorage/storage.py:365-376 | after a clean-up that passes, the upload id becomes the stored uri and the id is cleared. A clean-up fault leaves both unchanged. The resumable uri and the offset are never touched |
| Session.FilenameOrUnknown | guillotina_gcloudstorage/storage.py:429 | the filename when it is set and non-empty, otherwise `unknown` |
| Session.CopyAttempt | guillotina_gcloudstorage/storage.py:392-431 | it succeeds iff there is an uploaded file and a non-404 JSON answer names the new object with a type and a readable size; the copied object then carries them. A 404 is not-found naming both uris; a wrong name is an AssertionError |
| Session.CopySettlesAtFirstAnswer | guillotina_gcloudstorage/storage.py:391-431 | unless the request itself raises, the first attempt decides `copy` |
| Session.Copy | guillotina_gcloudstorage/storage.py:391-431 | a successful copy seeds the destination with the copied object. A failed one leaves the destination untouched and raises the copy's fault |
| ResumableUpload.Total | guillotina_gcloudstorage/storage.py:304-308 | the Content-Range total reads back as the declared size, and is `*` while the size is unknown |
| ResumableUpload.AppendHeaders | guillotina_gcloudstorage/storage.py:309-317 | Content-Length and Content-Type always. Content-Range is present iff the chunk length differs from the declared size, and then names offset to offset + len - 1 over the total |
| ResumableUpload.AppendAttempt | guillotina_gcloudstorage/storage.py:319-337 | 200/201/308 are returned as they are. 410 raises the non-retriable Gone. Other statuses raise a GoogleCloudException quoting the status, the text and the Content-Range sent |
| ResumableUpload.AppendCallVerdicts | guillotina_gcloudstorage/storage.py:300-337 | a 410 ends `_append` at the first attempt. Bad statuses on all ten attempts raise GoogleCloudException after ten attempts, mentioning the Content-Range sent |
| ResumableUpload.MismatchNamesBoth | guillotina_gcloudstorage/storage.py:353-358 | the mismatch message contains both the server's Range header and the local offset |
| ResumableUpload.CheckRange | guillotina_gcloudstorage/storage.py:347-359 | a 308 passes iff its Range header's number after the last `-` is the offset of the last byte sent. A missing header is KeyError, a non-number ValueError, and a mismatch PreconditionFailed naming both values |
| ResumableUpload.CheckRangeExact | guillotina_gcloudstorage/storage.py:349-350 | for `bytes=lo-hi` the check passes exactly when hi is the last byte sent |
| ResumableUpload.ContentRangeAcknowledged | guillotina_gcloudstorage/storage.py:313-316 | the last byte named by a chunk's Content-Range is the byte whose acknowledgement `bytes=0-{last}` passes the check after that chunk |
| ResumableUpload.AppendFrom | guillotina_gcloudstorage/storage.py:339-363 | the loop sends at least one chunk when there is one, and never more than there are |
| ResumableUpload.AppendCountsSentBytes | guillotina_gcloudstorage/storage.py:340-345 | a successful `append` returns the total length of the chunks it sent |
| ResumableUpload.AppendStopsAtFinal | guillotina_gcloudstorage/storage.py:360-362 | when `append` stops early without raising, the last chunk it sent (at the start offset plus the lengths before it) got a 200 or 201 |
| ResumableUpload.AppendStopsAtFirstFinal | guillotina_gcloudstorage/storage.py:339-363 | every chunk before the last one sent was answered without a fault, not with 200/201, and with a 308 whose Range passes the check, at the start offset plus the lengths before it. A chunk answered 200/201 is the last one sent |
| ResumableUpload.Append | guillotina_gcloudstorage/storage.py:339-363 | the loop returns or raises what `AppendFrom` describes and sends as many chunks |
| ResumableUpload.AppendChunk | guillotina_gcloudstorage/storage.py:300-303 | `_append` with its decorator ends as up to ten attempts with this chunk's headers end |
| ResumableUpload.ReplyToFirstAnswer | guillotina_gcloudstorage/storage.py:324-337 | an answer `_append` accepts at the first attempt is exactly the one it returns |
| ResumableUpload.AcknowledgedChunkPasses | guillotina_gcloudstorage/storage.py:347-350 | a 308 acknowledging every byte sent so far passes the check |
| ResumableUpload.AppendAcknowledged | guillotina_gcloudstorage/storage.py:341-363 | when every chunk is acknowledged in full, every chunk is sent and the count is their total length |
| ResumableUpload.AppendSendsEverything | guillotina_gcloudstorage/storage.py:339-363 | against a session that acknowledges every non-empty chunk at its first attempt, `append` sends all chunks and returns the body's length |
| Legacy.LegacyHeaders | pserver/gcloudstorage/storage.py:325-335 | every PUT carries Content-Length, Content-Type and a Content-Range from the current offset over `_size` as given |
| Legacy.AckedOffsetVerdicts | pserver/gcloudstorage/storage.py:339-340 | a missing Range raises KeyError and one without `-` raises IndexError. The offset is read iff the text after the first `-` is a number, and it is that number |
| Legacy.AckedRange | pserver/gcloudstorage/storage.py:340 | `bytes=lo-hi` is read as hi |
| Legacy.AckedOffsetOneShort | pserver/gcloudstorage/storage.py:340 | after `bytes=0-{n-1}` acknowledges n bytes, `_current_upload` becomes n - 1, so the next Content-Range starts at a byte already received |
| Legacy.ResumeOffset | pserver/gcloudstorage/storage.py:339-340 | the resume offset is one past the last byte acknowledged, and is read exactly when that byte is |
| Legacy.ResumeOffsetCountsBytes | pserver/gcloudstorage/storage.py:340 | after `bytes=0-{n-1}` the resume offset is n, the number of bytes received |
| Legacy.ResumeOffsetPassesCheck | guillotina_gcloudstorage/storage.py:347-350 | that offset n is the one the current `append` check accepts for the same Range |
| Legacy.AppendOutcomeVerdicts | pserver/gcloudstorage/storage.py:336-342 | only 200, 201 and 308 pass the assert (others raise AssertionError). Only a 308 moves the offset, to what its Range says, and a fault propagates |
| Legacy.InitAnswer | pserver/gcloudstorage/storage.py:315-316 | accepted iff 200 with a Location, which becomes the resumable uri. A non-200 is an AssertionError; no Location is KeyError |
| Legacy.InitHeaders | pserver/gcloudstorage/storage.py:305-314 | exactly four headers: the content type, `_size` as given, the JSON content type, and the metadata length |
| Legacy.IgnoreHttpError | pserver/gcloudstorage/storage.py:287-290 | a delete fails the caller iff it raised something other than HttpError, with that fault |
| Legacy.DeleteUploadAsWritten | pserver/gcloudstorage/storage.py:361-368 | `deleteUpload` as written always raises AttributeError |
| Legacy.DeleteUploadIntended | pserver/gcloudstorage/storage.py:361-368 | with the blob store's client a missing uri raises AttributeError, and a set one ends as the delete request does |
| Legacy.DeleteUploadNeverDeletes | pserver/gcloudstorage/storage.py:361-368 | for a stored object whose deletion would succeed, the code as written fails where the intended call succeeds |
| Legacy.GCloudFile.constructor | pserver/gcloudstorage/storage.py:264-273 | a new file has the given content type and filename and offset 0. `_size`, `_upload_file_id`, `_resumable_uri` and `_uri` are not yet assigned |
| Legacy.GCloudFile.Size | pserver/gcloudstorage/storage.py:385-390 | the `size` property is `_size` when it was assigned, None otherwise |
| Legacy.GCloudFile.InitUpload | pserver/gcloudstorage/storage.py:275-320 | a pending upload id is deleted first; a fault other than HttpError raises and keeps the old id. Otherwise the new id is assigned even if what follows fails. No `_size` raises AttributeError. An accepted POST sets the resumable uri and a zero offset; on failure they keep their values |
| Legacy.GCloudFile.AppendData | pserver/gcloudstorage/storage.py:322-342 | no `_size` raises AttributeError, and so does an unassigned `_resumable_uri`. Otherwise the call returns the response iff `AppendOutcome` accepts the answer, moving the offset as it says. A failure leaves the offset. No other field changes |
| Legacy.GCloudFile.FinishUpload | pserver/gcloudstorage/storage.py:347-359 | a delete fault (other than HttpError) of the stored object leaves both ids. Otherwise an `_upload_file_id` never assigned raises AttributeError and changes nothing; an assigned one becomes the stored uri and is set to None. The offset and resumable uri are untouched |
| Legacy.GCloudFile.DeleteUpload | pserver/gcloudstorage/storage.py:361-368 | it always raises AttributeError |
| Legacy.JsonConverter | pserver/gcloudstorage/storage.py:55-63 | None stays None. A file becomes exactly its filename, content type and `size` property |
| Legacy.DropFront | pserver/gcloudstorage/storage.py:111 | `data[k:]` with Python's slicing: the suffix from k, empty past the end, and for negative k the last -k bytes (all of them when -k exceeds the length) |
| Legacy.Refill | pserver/gcloudstorage/storage.py:119-122 | `readexactly(n)` gives the next n body bytes, or what is left at the end (the partial read) |
| Legacy.DropAndRefill | pserver/gcloudstorage/storage.py:107-122 | dropping the acknowledged bytes and reading as many again keeps the buffer a contiguous window of the body |
| Legacy.RoundVerdict | pserver/gcloudstorage/storage.py:113-127 | a 200/201 finishes. A 308 always goes on with the counter reset (an offset that went back asks `readexactly` for a negative count, which reads nothing). Any other status counts a retry and raises past MAX_RETRIES |
| Legacy.OutcomesAt | pserver/gcloudstorage/storage.py:108 | round k's outcome is `appendData` on the k-th answer |
| Legacy.OutcomesAreAppendLike | pserver/gcloudstorage/storage.py:338-340 | every round of the loop ends as `appendData` can: only 200/201/308 succeed and only a 308 moves the offset |
| Legacy.UploadStopsAtFinal | pserver/gcloudstorage/storage.py:115-116 | the loop stops at the first 200/201 with offset and buffer unchanged |
| Legacy.RoundsNeverTrip | pserver/gcloudstorage/storage.py:117-127 | with outcomes like `appendData`'s, the loop never raises "MAX retries error" unless a PUT raised it itself |
| Legacy.UploadCounterNeverTrips | pserver/gcloudstorage/storage.py:124-127 | the retry branch of `upload` is dead: its counter never passes MAX_RETRIES |
| Legacy.RoundsUnfold | pserver/gcloudstorage/storage.py:106-127 | a fault ends the loop where it stands. A 308 that does not go back moves on with the acknowledged bytes dropped and as many read, counter reset. A 200/201 finishes |
| Legacy.RoundsFail | pserver/gcloudstorage/storage.py:108 | a PUT that raises ends the loop where it stands |
| Legacy.RoundsContinue | pserver/gcloudstorage/storage.py:107-122 | a continuing round leads to the next round with the new buffer, read position, offset and counter |
| Legacy.RoundsStop | pserver/gcloudstorage/storage.py:113-127 | a stopping round ends the loop as its verdict says, with the acknowledged bytes dropped |
| Legacy.WindowAtStop | pserver/gcloudstorage/storage.py:106-116 | when the loop stops at once, the buffer is still the body from the offset to the read position |
| Legacy.AckStep | pserver/gcloudstorage/storage.py:107-122 | a 308 within the buffer moves the loop on to the window from the acknowledged offset to the new read position |
| Legacy.AcksOneRound | pserver/gcloudstorage/storage.py:107-122 | such a 308 acknowledges between none and all of the buffer, and reading as many more bytes stays within the body |
| Legacy.UploadKeepsWindow | pserver/gcloudstorage/storage.py:105-127 | while acknowledgements stay within the buffer, the buffer is always the body from `_current_upload` to the read position: nothing is skipped or duplicated |
| Legacy.OutcomesFollow | pserver/gcloudstorage/storage.py:108 | the answers' outcomes give every round `appendData`'s outcome |
| Legacy.SendRound | pserver/gcloudstorage/storage.py:106-127 | one PUT of the buffer stops the loop where `UploadRounds` does, or leads to its next round. Only the offset of the file changes |
| Legacy.NextRound | pserver/gcloudstorage/storage.py:109-127 | after a round's outcome the loop stops where `UploadRounds` does, or leads to its next round with the new offset |
| Legacy.SendBody | pserver/gcloudstorage/storage.py:105-127 | the loop ends with the end, offset, buffer and read position of `UploadRounds` from the first read. Only the offset of the file changes |
| Legacy.Upload | pserver/gcloudstorage/storage.py:75-129 | the field's file is reused or created with the request's type. md5, `_size` and filename (or a generated hex name) come from the request headers. A missing size raises AttributeError. A finished upload stores the new upload id `{site}/{hex}` as its uri and sets the id to None |
| Legacy.SendAndFinish | pserver/gcloudstorage/storage.py:100-129 | after a first read of up to CHUNK_SIZE bytes, the upload ends as its rounds do. A finished upload then fails iff deleting the stored object raises other than HttpError. Otherwise the upload id `initUpload` assigned becomes the stored uri and the id becomes None |
| Text.ParseNatToString | guillotina_gcloudstorage/storage.py:350 | `int(str(n)) == n` for every natural n |
| Text.JoinSplit | guillotina_gcloudstorage/storage.py:249 | joining the pieces of `s.split(sep)` with `sep` gives back `s` |
| Text.SplitFindsSeparator | guillotina_gcloudstorage/storage.py:248-249 | `s.split(sep)` has more than one piece iff `sep in s` |

## Left out

- Authentication is not modelled: access tokens, service-account credentials,
  `get_headers`, `get_client`, and the token cache. Headers built from a token appear
  only as the absence or presence of a fault in the answer to the request.
- The waits between retries (exponential or constant backoff) are not modelled; only
  which attempts are made and how they end.
- URLs, `quote_plus`, the JSON metadata body of `start` and `initUpload`, and the
  `alt=media` parameter are not modelled. Only the metadata body's length enters (as
  Content-Length).
- The file-name generator, the uuid and `request._site_id` become inputs: `names(i)`,
  `filenameHex`, `siteId`, `idHex`.
- `check_bucket_accessibility` is an input boolean (`BucketProbe.accessible`). Its
  `get_bucket` call is inside its `try` and every fault of it is caught. Its `get_client`
  call comes before the `try`, so a fault there would reach the caller; that call belongs
  to authentication, which is not modelled, and is taken not to fail.
- `_create_bucket`'s second `create` call on TypeError (older SDKs) is not modelled; a
  create is one input outcome.
- `generate_download_signed_url`, `range_supported` (always true), `initialize`,
  `should_clean` (an input boolean) and logging are not modelled.
- The earlier version's TUS endpoints (`tus_create`, `tus_patch`, `tus_head`,
  `tus_options`), `download`, its `GCloudBlobStore`, the `notify` events and
  `_resumable_uri_date` are not modelled.
- `dm.update` and `to_dm.finish` are modelled as assignments to the data manager's
  fields; any other work those calls do is outside this model.
- Text.Lower: lower-cases ASCII letters only. Python's `str.lower()` also lower-cases
  other letters, so a container id with non-ASCII capitals gives a different bucket name
  and `container` label here.
- Buckets.ResolveAttempt: takes how `_get_or_create_bucket` ended as the input
  `BucketProbe.ensured`. `Buckets.ResolveEnsuresBucket` states resolution when that input
  is the outcome of `EnsureBucket`; the bucket object itself is not passed on.
- Text.ParseInt: reads only plain decimal digits. Python's `int()` also accepts
  surrounding whitespace, a sign and underscores. A size or Range written that way is a
  ValueError here rather than a number.
- Session.StartHeaders: the content type is taken as a string. `to_str(None)` for a
  missing content type is not modelled.
- Buckets.ToBlob: the creation time is kept as its text. The date parse of
  `dateutil.parser.parse` is taken as total, so a malformed date does not fail the
  conversion here; the iff of its contract holds for dates the parser accepts.
- Buckets.FormatBucketName: a subset of `str.format`. Plain keyword fields, `{name!s}`,
  `{{`, `}}` and the IndexError, KeyError and ValueError of a missing argument or stray
  brace are modelled. Other conversions (`!r`, `!a`), format specs (`{base:.10}`),
  attribute and index access and nested fields are refused with ValueError, where Python
  would apply them.
- Legacy.Refill: the request body's `readexactly` is taken, as in aiohttp's stream
  reader, to return empty bytes for a count of zero or less. At the end of the body the
  `IncompleteReadError` the loop catches is folded into the partial read it yields.
- Deletion.DeleteByPrefixAttempt: `get_bucket_name`, `get_client` and the batch request
  are one input answer per call (`batch`); which of them raised is not distinguished.
- Files.ExistsAttempt: the resolution of the bucket name inside `exists`, `iter_data`,
  `delete_upload` and `delete_bucket` (with `delete_bucket`'s `get_client`) is folded into
  the request's answer. The body's `content.read` is a
  sequence of reads, each a chunk or the fault it raised. A fault of that resolution is
  a Failure of the answer.
- ResumableUpload.Append: generic over how each `_append` call ends (`reply`).
  `AppendSpec` instantiates it with `_append` against the session's answers. The chunk
  iterator is a finite sequence.
- Legacy.SendBody: the request body is a finite sequence and the PUT answers are a
  finite sequence. A loop that needs more answers than given ends with `OutOfAnswers`,
  which the code cannot reach. The round outcomes are passed as a ghost `step`, tied to
  the answers by `StepsFollow`.
- Legacy.Upload: states the file's fields and the stored uri of a finished upload. How
  the rounds end is stated by `Legacy.SendAndFinish`, which it calls after a successful
  `initUpload`.
- Legacy.GCloudFile.constructor: the `filename` FieldProperty default (and the uuid
  assigned when that default is not None) is not modelled. The filename is the one
  given.
- Deletion.DeleteUploadFailures: states the two extreme cases (no uri; error statuses on
  every attempt). Mixed sequences of answers follow from `Retry.Attempts`.
- ResumableUpload.AppendCallVerdicts: likewise, only a first-attempt 410 and errors on
  every attempt. Other sequences follow from `Retry.Attempts`.

## Findings

| source | as written | input that shows it | evidently intended | confidence | as-written member | corrected member |
|---|---|---|---|---|---|---|
| pserver/gcloudstorage/storage.py:361-368 | `deleteUpload` calls `util._service`, but the module-level `util` is the `oauth2client` helper module (lines 38-41), not the blob store | a file whose `_uri` is set: AttributeError, nothing deleted | delete through the blob store's API client, as `initUpload` and `finishUpload` do | high, not executed | Legacy.DeleteUploadAsWritten | Legacy.DeleteUploadIntended |
| pserver/gcloudstorage/storage.py:340 | `appendData` stores the number after `-` in `Range`, which is the index of the last byte received | 524288 bytes sent, answer `Range: bytes=0-524287`: `_current_upload` becomes 524287, and the next Content-Range restarts at a byte the server holds | resume one past the acknowledged byte (524288), as the current `append` check expects | medium, not executed | Legacy.AckedOffsetOneShort | Legacy.ResumeOffsetCountsBytes |

`Legacy.GCloudFile` models the earlier version as it is, so its `AppendData` and
`DeleteUpload` keep the behaviour of the first column, as does its `FinishUpload`, which
raises AttributeError when `_upload_file_id` was never assigned (`__init__` does not assign
it). The corrected offset is the one the
current implementation's `append` check works with; `Legacy.ResumeOffsetPassesCheck`
proves that the two agree.
