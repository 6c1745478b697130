/** The chunk protocol of a resumable upload (guillotina_gcloudstorage/storage.py): the
    headers of one PUT (`_append`), how its answer is classified, the check of a 308
    answer's `Range` against the local offset, and the `append` driver that sends a
    sequence of chunks. The resumable session is given as `server(j, headers, i)`: the
    answer to attempt i of chunk j sent with those headers. */
module ResumableUpload {
  import opened Common
  import opened Text
  import Retry

  /** The answer to a PUT of one chunk: status, body text and `Range` header. */
  datatype PutResponse = PutResponse(status: int, text: string, range: Option<string>)

  type Headers = map<string, string>

  type Server = (nat, Headers, nat) -> Result<PutResponse>

  // ---------------------------------------------------------------------------
  // _append
  // ---------------------------------------------------------------------------

  /** The `total` of a Content-Range: the declared size, or `*` while it is unknown. */
  function Total(size: Option<nat>): (t: string)
    ensures size.None? ==> t == "*"
    ensures size.Some? ==> ParseInt(t) == Some(size.value)
  {
    if size.Some? then ParseNatToString(size.value); NatToString(size.value) else "*"
  }

  /** `bytes {init}-{chunk}/{total}` with chunk = offset + len - 1. */
  function ContentRange(offset: int, len: nat, total: string): string {
    "bytes " + IntToString(offset) + "-" + IntToString(offset + len - 1) + "/" + total
  }

  /** The headers `_append` sends with a chunk of `len` bytes at `offset`. The chunk length
      is compared with the declared size (not with what is left to send), so a body sent
      in one chunk carries no Content-Range, and every chunk of a body of unknown size
      carries one. */
  function AppendHeaders(size: Option<nat>, contentType: string, len: nat, offset: int): (h: Headers)
    ensures h.Keys == {"Content-Length", "Content-Type"} + (if size != Some(len) then {"Content-Range"} else {})
    ensures ParseInt(h["Content-Length"]) == Some(len)
    ensures h["Content-Type"] == contentType
    ensures "Content-Range" in h ==> h["Content-Range"] == ContentRange(offset, len, Total(size))
  {
    ParseNatToString(len);
    var h := map["Content-Length" := NatToString(len), "Content-Type" := contentType];
    if size != Some(len) then h["Content-Range" := ContentRange(offset, len, Total(size))] else h
  }

  /** `headers.get("Content-Range", "")` */
  function SentRange(h: Headers): string {
    if "Content-Range" in h then h["Content-Range"] else ""
  }

  /** One attempt of `_append`: 200, 201 and 308 are returned, 410 means the session is
      gone, and any other status raises the retriable GoogleCloudException. */
  function AppendAttempt(h: Headers, reply: Result<PutResponse>): (r: Result<PutResponse>)
    ensures r.Success? <==> reply.Success? && reply.value.status in {200, 201, 308}
    ensures r.Success? ==> r == reply
    ensures reply.Failure? ==> r == Failure(reply.error)
    ensures reply.Success? && reply.value.status == 410 ==>
      r == Failure(Gone(reply.value.text)) && !Retriable(r.error)
    ensures reply.Success? && reply.value.status !in {200, 201, 308, 410} ==>
      r.Failure? && r.error.GoogleCloud? &&
      r.error.message == IntToString(reply.value.status) + ": " + reply.value.text + " - Content Range: '" + SentRange(h) + "'"
  {
    match reply
    case Failure(e) => Failure(e)
    case Success(resp) =>
      if resp.status in {200, 201, 308} then Success(resp)
      else if resp.status == 410 then Failure(Gone(resp.text))
      else Failure(GoogleCloud(IntToString(resp.status) + ": " + resp.text + " - Content Range: '" + SentRange(h) + "'"))
  }

  function AppendAttempts(h: Headers, answers: nat -> Result<PutResponse>): nat -> Result<PutResponse> {
    (i: nat) => AppendAttempt(h, answers(i))
  }

  /** `_append` with its decorator's ten attempts. */
  function AppendCall(h: Headers, answers: nat -> Result<PutResponse>): (Result<PutResponse>, nat) {
    Retry.Backoff(Retry.DefaultTries, AppendAttempts(h, answers))
  }

  /** A 410 ends the upload at the first attempt; a status outside 200, 201, 308 and 410 on
      every attempt is tried ten times and raised with the Content-Range that was sent. */
  lemma AppendCallVerdicts(h: Headers, answers: nat -> Result<PutResponse>)
    ensures answers(0).Success? && answers(0).value.status == 410 ==>
      AppendCall(h, answers) == (Failure(Gone(answers(0).value.text)), 1)
    ensures (forall i :: 0 <= i < Retry.DefaultTries ==>
               answers(i).Success? && answers(i).value.status !in {200, 201, 308, 410}) ==>
      AppendCall(h, answers).1 == Retry.DefaultTries &&
      AppendCall(h, answers).0.Failure? && AppendCall(h, answers).0.error.GoogleCloud? &&
      Contains(AppendCall(h, answers).0.error.message, SentRange(h))
  {
    var attempt := AppendAttempts(h, answers);
    if answers(0).Success? && answers(0).value.status == 410 {
      assert attempt(0) == AppendAttempt(h, answers(0));
      Retry.BackoffSettlesAtFirst(Retry.DefaultTries, attempt, 0);
    }
    if forall i :: 0 <= i < Retry.DefaultTries ==>
         answers(i).Success? && answers(i).value.status !in {200, 201, 308, 410} {
      forall j | 0 <= j < Retry.DefaultTries
        ensures Retry.Retries(attempt(j))
      {
        assert attempt(j) == AppendAttempt(h, answers(j));
      }
      Retry.BackoffExhausts(Retry.DefaultTries, attempt);
      var last := answers(Retry.DefaultTries - 1).value;
      assert attempt(Retry.DefaultTries - 1) == AppendAttempt(h, answers(Retry.DefaultTries - 1));
      ContainsInfix(IntToString(last.status) + ": " + last.text + " - Content Range: '", SentRange(h), "'");
    }
  }

  // ---------------------------------------------------------------------------
  // The 308 check of `append`
  // ---------------------------------------------------------------------------

  function OffsetMismatch(range: string, newOffset: int): string {
    "Guillotina and google cloud storage offsets do not match. Google: " + range + ", TUS(offset): " + IntToString(newOffset)
  }

  /** The mismatch message names both the `Range` header and the offset. */
  lemma MismatchNamesBoth(range: string, newOffset: int)
    ensures Contains(OffsetMismatch(range, newOffset), range)
    ensures Contains(OffsetMismatch(range, newOffset), IntToString(newOffset))
  {
    var prefix := "Guillotina and google cloud storage offsets do not match. Google: ";
    var m := OffsetMismatch(range, newOffset);
    assert m == prefix + range + (", TUS(offset): " + IntToString(newOffset));
    ContainsInfix(prefix, range, ", TUS(offset): " + IntToString(newOffset));
    assert m == (prefix + range + ", TUS(offset): ") + IntToString(newOffset) + "";
    ContainsInfix(prefix + range + ", TUS(offset): ", IntToString(newOffset), "");
  }

  /** The check `append` makes on a 308: the integer after the last `-` of the `Range`
      header must be the offset of the last byte sent. */
  function CheckRange(range: Option<string>, newOffset: int): (r: Result<()>)
    ensures range.None? ==> r == Failure(KeyError("Range"))
    ensures r.Success? <==>
      range.Some? && ParseInt(Last(Split(range.value, "-"))).Some? &&
      ParseInt(Last(Split(range.value, "-"))).value == newOffset - 1
    ensures range.Some? && ParseInt(Last(Split(range.value, "-"))).None? ==>
      r == Failure(ValueError(Last(Split(range.value, "-"))))
    ensures r.Failure? && r.error.PreconditionFailed? ==>
      range.Some? && Contains(r.error.reason, range.value) && Contains(r.error.reason, IntToString(newOffset))
  {
    match range
    case None => Failure(KeyError("Range"))
    case Some(v) =>
      var last := Last(Split(v, "-"));
      match ParseInt(last)
      case None => Failure(ValueError(last))
      case Some(n) =>
        if newOffset - 1 != n then
          MismatchNamesBoth(v, newOffset);
          Failure(PreconditionFailed(OffsetMismatch(v, newOffset)))
        else Success(())
  }

  lemma DashNotInDigits(lo: nat)
    ensures '-' !in "bytes=" + NatToString(lo)
  {
    DigitsHaveNo(NatToString(lo), '-');
    assert "bytes=" == ['b', 'y', 't', 'e', 's', '='];
  }

  /** For the `Range` Google sends, `bytes=lo-hi`, the check passes exactly when `hi` is the
      last byte sent. */
  lemma CheckRangeExact(lo: nat, hi: nat, newOffset: int)
    ensures CheckRange(Some("bytes=" + NatToString(lo) + "-" + NatToString(hi)), newOffset).Success? <==> hi == newOffset - 1
  {
    var x := "bytes=" + NatToString(lo);
    DashNotInDigits(lo);
    DigitsHaveNo(NatToString(hi), '-');
    SplitInTwo(x, '-', NatToString(hi));
    assert "bytes=" + NatToString(lo) + "-" + NatToString(hi) == x + ['-'] + NatToString(hi);
    ParseNatToString(hi);
  }

  /** The last byte a Content-Range names is the byte a 308 must acknowledge for the check
      after that chunk to pass. */
  lemma ContentRangeAcknowledged(offset: nat, len: nat, total: string)
    requires len >= 1
    ensures ContentRange(offset, len, total) == "bytes " + NatToString(offset) + "-" + NatToString(offset + len - 1) + "/" + total
    ensures CheckRange(Some("bytes=0-" + NatToString(offset + len - 1)), offset + len) == Success(())
  {
    CheckRangeExact(0, offset + len - 1, offset + len);
    assert NatToString(0) == "0";
    assert "bytes=" + NatToString(0) + "-" + NatToString(offset + len - 1) == "bytes=0-" + NatToString(offset + len - 1);
  }

  // ---------------------------------------------------------------------------
  // append
  // ---------------------------------------------------------------------------

  /** The number of bytes in a sequence of chunks. */
  function TotalLength(chunks: seq<Bytes>): nat {
    if chunks == [] then 0 else TotalLength(chunks[..|chunks| - 1]) + |chunks[|chunks| - 1]|
  }

  lemma {:induction false} TotalLengthConcat(a: seq<Bytes>, b: seq<Bytes>)
    ensures TotalLength(a + b) == TotalLength(a) + TotalLength(b)
    decreases |b|
  {
    if b != [] {
      var n := |b| - 1;
      assert (a + b)[..|a + b| - 1] == a + b[..n];
      TotalLengthConcat(a, b[..n]);
    } else {
      assert a + b == a;
    }
  }

  lemma TotalLengthFront(chunks: seq<Bytes>, j: nat, s: nat)
    requires j <= s <= |chunks|
    ensures j < s ==> TotalLength(chunks[j..s]) == |chunks[j]| + TotalLength(chunks[j + 1..s])
  {
    if j < s {
      assert chunks[j..s] == [chunks[j]] + chunks[j + 1..s];
      TotalLengthConcat([chunks[j]], chunks[j + 1..s]);
      assert [chunks[j]][..0] == [];
    }
  }

  /** The answers the session gives to the attempts of chunk j sent with headers h. */
  function Answers(server: Server, j: nat, h: Headers): nat -> Result<PutResponse> {
    (i: nat) => server(j, h, i)
  }

  /** How `_append` ends for chunk j, of `len` bytes sent at `offset`. */
  function ReplyTo(size: Option<nat>, contentType: string, server: Server, j: nat, len: nat, offset: int): Result<PutResponse> {
    var h := AppendHeaders(size, contentType, len, offset);
    AppendCall(h, Answers(server, j, h)).0
  }

  /** How a call of `_append` ends, by chunk index, chunk length and offset. */
  type ChunkReply = (nat, nat, int) -> Result<PutResponse>

  function Replies(size: Option<nat>, contentType: string, server: Server): ChunkReply {
    (j: nat, len: nat, offset: int) => ReplyTo(size, contentType, server, j, len, offset)
  }

  /** An answer `_append` accepts at the first attempt is the one it returns. */
  lemma ReplyToFirstAnswer(size: Option<nat>, contentType: string, server: Server, j: nat, len: nat, offset: int)
    requires var h := AppendHeaders(size, contentType, len, offset);
      server(j, h, 0).Success? && server(j, h, 0).value.status in {200, 201, 308}
    ensures ReplyTo(size, contentType, server, j, len, offset) == server(j, AppendHeaders(size, contentType, len, offset), 0)
  {
    var h := AppendHeaders(size, contentType, len, offset);
    var attempt := AppendAttempts(h, Answers(server, j, h));
    assert attempt(0) == AppendAttempt(h, server(j, h, 0));
    Retry.BackoffSettlesAtFirst(Retry.DefaultTries, attempt, 0);
  }

  /** What `append` returns or raises, and how many chunks it sent. */
  datatype AppendRun = AppendRun(outcome: Result<nat>, sent: nat)

  /** `append` from chunk j on, at `offset`, having counted `count` bytes; `reply` tells how
      each `_append` call ends. */
  function AppendFrom(chunks: seq<Bytes>, j: nat, offset: int, count: nat, reply: ChunkReply): (r: AppendRun)
    requires j <= |chunks|
    ensures j <= r.sent <= |chunks|
    ensures j < |chunks| ==> j < r.sent
    decreases |chunks| - j
  {
    if j == |chunks| then AppendRun(Success(count), j)
    else
      var len := |chunks[j]|;
      match reply(j, len, offset)
      case Failure(e) => AppendRun(Failure(e), j + 1)
      case Success(resp) =>
        if resp.status == 308 then
          match CheckRange(resp.range, offset + len)
          case Failure(e) => AppendRun(Failure(e), j + 1)
          case Success(_) => AppendFrom(chunks, j + 1, offset + len, count + len, reply)
        else if resp.status in {200, 201} then AppendRun(Success(count + len), j + 1)
        else AppendFrom(chunks, j + 1, offset + len, count + len, reply)
  }

  /** `append(dm, chunks, offset)`. */
  function AppendSpec(size: Option<nat>, contentType: string, chunks: seq<Bytes>, offset: int, server: Server): AppendRun {
    AppendFrom(chunks, 0, offset, 0, Replies(size, contentType, server))
  }

  /** `append` returns the number of bytes in the chunks it sent. */
  lemma {:induction false} AppendCountsSentBytes(chunks: seq<Bytes>, j: nat, offset: int, count: nat, reply: ChunkReply)
    requires j <= |chunks|
    ensures var r := AppendFrom(chunks, j, offset, count, reply);
      r.outcome.Success? ==> r.outcome.value == count + TotalLength(chunks[j..r.sent])
    decreases |chunks| - j
  {
    var r := AppendFrom(chunks, j, offset, count, reply);
    if j == |chunks| {
      assert chunks[j..j] == [];
    } else {
      assert chunks[j..j + 1] == [chunks[j]];
      assert [chunks[j]][..0] == [];
      var len := |chunks[j]|;
      AppendCountsSentBytes(chunks, j + 1, offset + len, count + len, reply);
      TotalLengthFront(chunks, j, r.sent);
    }
  }

  /** When `append` stops before the last chunk without raising, the last chunk it sent,
      at the starting offset plus the length of the chunks before it, got a final (200 or
      201) answer. */
  lemma {:induction false} AppendStopsAtFinal(chunks: seq<Bytes>, j: nat, offset: int, count: nat, reply: ChunkReply)
    requires j <= |chunks|
    ensures FinalBeforeEnd(chunks, j, offset, reply, AppendFrom(chunks, j, offset, count, reply))
    decreases |chunks| - j
  {
    if j < |chunks| {
      var len := |chunks[j]|;
      AppendStopsAtFinal(chunks, j + 1, offset + len, count + len, reply);
      StopsAtFinalStep(chunks, j, offset, count, reply);
    }
  }

  /** The last chunk sent before a stop, seen from chunk j or from chunk j + 1. */
  predicate FinalBeforeEnd(chunks: seq<Bytes>, j: nat, offset: int, reply: ChunkReply, r: AppendRun) {
    r.outcome.Success? && j < r.sent < |chunks| ==>
      StoppedAtFinal(reply(r.sent - 1, |chunks[r.sent - 1]|, offset + TotalLength(chunks[j..r.sent - 1])))
  }

  lemma StopsAtFinalStep(chunks: seq<Bytes>, j: nat, offset: int, count: nat, reply: ChunkReply)
    requires j < |chunks|
    requires var len := |chunks[j]|;
      FinalBeforeEnd(chunks, j + 1, offset + len, reply, AppendFrom(chunks, j + 1, offset + len, count + len, reply))
    ensures FinalBeforeEnd(chunks, j, offset, reply, AppendFrom(chunks, j, offset, count, reply))
  {
    var r := AppendFrom(chunks, j, offset, count, reply);
    if r.outcome.Success? && j < r.sent < |chunks| {
      AppendFromOne(chunks, j, offset, count, reply);
      if r.sent == j + 1 {
        assert chunks[j..j] == [];
      } else {
        LastReplyShift(chunks, j, offset, r.sent, reply);
      }
    }
  }

  lemma LastReplyShift(chunks: seq<Bytes>, j: nat, offset: int, s: nat, reply: ChunkReply)
    requires j + 1 < s <= |chunks|
    ensures reply(s - 1, |chunks[s - 1]|, offset + TotalLength(chunks[j..s - 1])) ==
      reply(s - 1, |chunks[s - 1]|, offset + |chunks[j]| + TotalLength(chunks[j + 1..s - 1]))
  {
    TotalLengthFront(chunks, j, s - 1);
  }

  predicate StoppedAtFinal(o: Result<PutResponse>) {
    o.Success? && o.value.status in {200, 201}
  }

  /** One chunk of `append`: a run that succeeds having sent only chunk j, before the
      last chunk, stopped at a final answer; a run that sent more went on from j + 1. */
  lemma AppendFromOne(chunks: seq<Bytes>, j: nat, offset: int, count: nat, reply: ChunkReply)
    requires j < |chunks|
    ensures var r := AppendFrom(chunks, j, offset, count, reply);
      var o := reply(j, |chunks[j]|, offset);
      && (r.sent == j + 1 < |chunks| && r.outcome.Success? ==> StoppedAtFinal(o))
      && (r.sent > j + 1 ==> r == AppendFrom(chunks, j + 1, offset + |chunks[j]|, count + |chunks[j]|, reply))
      && (r.sent > j + 1 ==> PassedOn(chunks, j, offset, reply))
  {
  }

  /** Chunk i, sent at `offset`, let `append` go on: `_append` returned, the answer was
      not final, and a 308 passed the Range check. */
  predicate PassedOn(chunks: seq<Bytes>, i: nat, offset: int, reply: ChunkReply)
    requires i < |chunks|
  {
    var o := reply(i, |chunks[i]|, offset);
    && o.Success?
    && o.value.status !in {200, 201}
    && (o.value.status == 308 ==> CheckRange(o.value.range, offset + |chunks[i]|).Success?)
  }

  /** Every chunk sent before the last one, from chunk j on, let `append` go on, each at
      the offset the chunks before it add up to. */
  predicate PassedBeforeLast(chunks: seq<Bytes>, j: nat, offset: int, reply: ChunkReply, r: AppendRun) {
    forall i :: j <= i && i + 1 < r.sent <= |chunks| ==> PassedOn(chunks, i, offset + TotalLength(chunks[j..i]), reply)
  }

  /** `append` sends a chunk only after every earlier one went on, the offset growing by
      exactly each chunk's length; so no chunk follows a final answer. */
  lemma AppendStopsAtFirstFinal(chunks: seq<Bytes>, j: nat, offset: int, count: nat, reply: ChunkReply)
    requires j <= |chunks|
    ensures var r := AppendFrom(chunks, j, offset, count, reply);
      forall i :: j <= i && i + 1 < r.sent ==> PassedOn(chunks, i, offset + TotalLength(chunks[j..i]), reply)
    ensures var r := AppendFrom(chunks, j, offset, count, reply);
      forall i :: j <= i < r.sent && StoppedAtFinal(reply(i, |chunks[i]|, offset + TotalLength(chunks[j..i]))) ==>
        r.sent == i + 1
  {
    AppendPassesBeforeLast(chunks, j, offset, count, reply);
  }

  lemma {:induction false} AppendPassesBeforeLast(chunks: seq<Bytes>, j: nat, offset: int, count: nat, reply: ChunkReply)
    requires j <= |chunks|
    ensures PassedBeforeLast(chunks, j, offset, reply, AppendFrom(chunks, j, offset, count, reply))
    decreases |chunks| - j
  {
    if j < |chunks| {
      var len := |chunks[j]|;
      AppendPassesBeforeLast(chunks, j + 1, offset + len, count + len, reply);
      PassedStep(chunks, j, offset, count, reply);
    }
  }

  lemma PassedStep(chunks: seq<Bytes>, j: nat, offset: int, count: nat, reply: ChunkReply)
    requires j < |chunks|
    requires var len := |chunks[j]|;
      PassedBeforeLast(chunks, j + 1, offset + len, reply, AppendFrom(chunks, j + 1, offset + len, count + len, reply))
    ensures PassedBeforeLast(chunks, j, offset, reply, AppendFrom(chunks, j, offset, count, reply))
  {
    var r := AppendFrom(chunks, j, offset, count, reply);
    var len := |chunks[j]|;
    AppendFromOne(chunks, j, offset, count, reply);
    if r.sent > j + 1 {
      forall i | j <= i && i + 1 < r.sent <= |chunks|
        ensures PassedOn(chunks, i, offset + TotalLength(chunks[j..i]), reply)
      {
        if i == j {
          assert chunks[j..j] == [];
        } else {
          TotalLengthFront(chunks, j, i);
          assert offset + TotalLength(chunks[j..i]) == offset + len + TotalLength(chunks[j + 1..i]);
        }
      }
    }
  }

  /** `_append` with its decorator: attempts until an answer settles it or ten attempts
      have been made. */
  method AppendChunk(size: Option<nat>, contentType: string, server: Server, j: nat, len: nat, offset: int)
    returns (o: Result<PutResponse>)
    ensures o == Replies(size, contentType, server)(j, len, offset)
  {
    var h := AppendHeaders(size, contentType, len, offset);
    var tries;
    o, tries := Retry.Run(Retry.DefaultTries, AppendAttempts(h, Answers(server, j, h)));
  }

  /** The `append` loop: one `_append` call per chunk, whose outcome is `reply(j, len,
      offset)`, advancing offset and count by the chunk's length, checking each 308 and
      stopping at the first 200 or 201. */
  method Append(chunks: seq<Bytes>, offset: int, reply: ChunkReply) returns (r: Result<nat>, sent: nat)
    ensures AppendRun(r, sent) == AppendFrom(chunks, 0, offset, 0, reply)
  {
    var count: nat := 0;
    var off := offset;
    var j := 0;
    while j < |chunks|
      invariant j <= |chunks|
      invariant AppendFrom(chunks, j, off, count, reply) == AppendFrom(chunks, 0, offset, 0, reply)
      decreases |chunks| - j
    {
      var o := reply(j, |chunks[j]|, off);
      if o.Failure? {
        return Failure(o.error), j + 1;
      }
      var resp := o.value;
      count := count + |chunks[j]|;
      off := off + |chunks[j]|;
      if resp.status == 308 {
        var check := CheckRange(resp.range, off);
        if check.Failure? {
          return Failure(check.error), j + 1;
        }
      } else if resp.status in {200, 201} {
        return Success(count), j + 1;
      }
      j := j + 1;
    }
    return Success(count), j;
  }

  /** A 308 saying that the first `n` bytes have arrived. */
  predicate AcknowledgesFirst(answer: Result<PutResponse>, n: nat) {
    answer.Success? && answer.value.status == 308 && answer.value.range == Some("bytes=0-" + IntToString(n - 1))
  }

  /** An acknowledgement of every byte sent passes the check `append` makes. */
  lemma AcknowledgedChunkPasses(answer: Result<PutResponse>, offset: nat, len: nat)
    requires len >= 1 && AcknowledgesFirst(answer, offset + len)
    ensures CheckRange(answer.value.range, offset + len) == Success(())
  {
    ContentRangeAcknowledged(offset, len, "");
  }

  /** Every chunk from j on is non-empty and its `_append` call ends with a 308 that
      acknowledges every byte sent so far, the chunk included. */
  predicate AllAcknowledged(chunks: seq<Bytes>, j: nat, offset: nat, reply: ChunkReply)
    requires j <= |chunks|
    decreases |chunks| - j
  {
    j == |chunks| ||
    (|chunks[j]| >= 1 && AcknowledgesFirst(reply(j, |chunks[j]|, offset), offset + |chunks[j]|) &&
     AllAcknowledged(chunks, j + 1, offset + |chunks[j]|, reply))
  }

  /** When every chunk is acknowledged, every chunk is sent and `append` returns their
      total length. */
  lemma {:induction false} AppendAcknowledged(chunks: seq<Bytes>, j: nat, offset: nat, count: nat, reply: ChunkReply)
    requires j <= |chunks|
    requires AllAcknowledged(chunks, j, offset, reply)
    ensures AppendFrom(chunks, j, offset, count, reply) == AppendRun(Success(count + TotalLength(chunks[j..])), |chunks|)
    decreases |chunks| - j
  {
    if j < |chunks| {
      var len := |chunks[j]|;
      AcknowledgedChunkPasses(reply(j, len, offset), offset, len);
      AppendAcknowledged(chunks, j + 1, offset + len, count + len, reply);
      TotalLengthFront(chunks, j, |chunks|);
      assert chunks[j..|chunks|] == chunks[j..];
      assert chunks[j + 1..|chunks|] == chunks[j + 1..];
    } else {
      assert chunks[j..] == [];
    }
  }

  lemma AppendAcknowledgedFromStart(chunks: seq<Bytes>, offset: nat, reply: ChunkReply)
    requires AllAcknowledged(chunks, 0, offset, reply)
    ensures AppendFrom(chunks, 0, offset, 0, reply) == AppendRun(Success(TotalLength(chunks)), |chunks|)
  {
    AppendAcknowledged(chunks, 0, offset, 0, reply);
    WholeFromStart(chunks);
  }

  lemma WholeFromStart(chunks: seq<Bytes>)
    ensures 0 + TotalLength(chunks[0..]) == TotalLength(chunks)
  {
    assert chunks[0..] == chunks;
  }

  /** The session's answer to the first attempt of `_append` for each chunk. */
  function FirstAnswers(size: Option<nat>, contentType: string, server: Server): ChunkReply {
    (j: nat, len: nat, offset: int) => server(j, AppendHeaders(size, contentType, len, offset), 0)
  }

  /** The session answers the first attempt of every chunk from j on with a 308 that
      acknowledges every byte sent so far. */
  predicate SessionAcknowledges(size: Option<nat>, contentType: string, chunks: seq<Bytes>, j: nat, offset: nat, server: Server)
    requires j <= |chunks|
  {
    AllAcknowledged(chunks, j, offset, FirstAnswers(size, contentType, server))
  }

  /** Chunks acknowledged through `a` are acknowledged through `b` when every
      acknowledgement `a` gives, `b` gives too. */
  lemma {:induction false} AcknowledgedThrough(chunks: seq<Bytes>, j: nat, offset: nat, a: ChunkReply, b: ChunkReply)
    requires j <= |chunks|
    requires AllAcknowledged(chunks, j, offset, a)
    requires forall k: nat, len: nat, off: nat :: AcknowledgesFirst(a(k, len, off), off + len) ==> AcknowledgesFirst(b(k, len, off), off + len)
    ensures AllAcknowledged(chunks, j, offset, b)
    decreases |chunks| - j
  {
    if j < |chunks| {
      AcknowledgedThrough(chunks, j + 1, offset + |chunks[j]|, a, b);
    }
  }

  /** A chunk the session acknowledges at the first attempt is acknowledged by `_append`. */
  lemma AcknowledgedReply(size: Option<nat>, contentType: string, server: Server, j: nat, len: nat, offset: nat)
    requires AcknowledgesFirst(FirstAnswers(size, contentType, server)(j, len, offset), offset + len)
    ensures AcknowledgesFirst(Replies(size, contentType, server)(j, len, offset), offset + len)
  {
    ReplyToFirstAnswer(size, contentType, server, j, len, offset);
  }

  /** A session that acknowledges every chunk at the first attempt has every `_append`
      call acknowledge it. */
  lemma SessionAcknowledgesAll(size: Option<nat>, contentType: string, chunks: seq<Bytes>, j: nat, offset: nat, server: Server)
    requires j <= |chunks|
    requires SessionAcknowledges(size, contentType, chunks, j, offset, server)
    ensures AllAcknowledged(chunks, j, offset, Replies(size, contentType, server))
  {
    AcknowledgedReplies(size, contentType, server);
    AcknowledgedThrough(chunks, j, offset, FirstAnswers(size, contentType, server), Replies(size, contentType, server));
  }

  /** Every first answer that acknowledges a chunk is the answer `_append` returns. */
  lemma AcknowledgedReplies(size: Option<nat>, contentType: string, server: Server)
    ensures var a, b := FirstAnswers(size, contentType, server), Replies(size, contentType, server);
      forall k: nat, len: nat, off: nat :: AcknowledgesFirst(a(k, len, off), off + len) ==> AcknowledgesFirst(b(k, len, off), off + len)
  {
    forall k: nat, len: nat, off: nat | AcknowledgesFirst(FirstAnswers(size, contentType, server)(k, len, off), off + len)
      ensures AcknowledgesFirst(Replies(size, contentType, server)(k, len, off), off + len)
    {
      AcknowledgedReply(size, contentType, server, k, len, off);
    }
  }

  /** Against a session that acknowledges every non-empty chunk at its first attempt,
      `append` sends every chunk and returns the total length. */
  lemma AppendSendsEverything(size: Option<nat>, contentType: string, chunks: seq<Bytes>, offset: nat, server: Server)
    requires SessionAcknowledges(size, contentType, chunks, 0, offset, server)
    ensures AppendSpec(size, contentType, chunks, offset, server) == AppendRun(Success(TotalLength(chunks)), |chunks|)
  {
    SessionAcknowledgesAll(size, contentType, chunks, 0, offset, server);
    AppendAcknowledgedFromStart(chunks, offset, Replies(size, contentType, server));
  }
}
