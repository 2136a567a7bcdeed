/**
 * From request to response, and through the wire back to the client (src/broker/handler.rs,
 * src/protocol/response.rs).
 */
module Handler {
  import opened Bytes
  import opened Frames
  import opened Requests
  import R = Records
  import L = LogSpec
  import A = AppendTheorems
  import P = Partitions
  import G = Segments
  import B = Broker
  import C = Cursors
  import Z = Linearizability
  import S = Bridge

  datatype ErrorCode = OffsetNotFound | PartitionNotFound | StorageError | MessageTooLarge | ServerError

  datatype Response =
    | ProduceResponse(correlationId: nat, topic: seq<Byte>, partition: nat, offset: nat)
    | ProduceBatchResponse(correlationId: nat, topic: seq<Byte>, partition: nat, baseOffset: nat)
    | FetchResponse(correlationId: nat, topic: seq<Byte>, partition: nat, payload: seq<Byte>)
    | ErrorResponse(correlationId: nat, code: ErrorCode, text: seq<Byte>)

  /** The command a handler sends to the partition actor. */
  function CommandOf(req: Request): L.Command
  {
    match req
    case ProduceRequest(_, _, _, payload) => L.Produce(L.ValueOnly(payload))
    case ProduceBatchRequest(_, _, _, payloads) => L.ProduceBatch(payloads)
    case FetchRequest(_, _, _, offset, maxBytes) => L.FetchFrom(offset, maxBytes)
  }

  function KeyOfRequest(req: Request): B.Key { B.Key(req.topic, req.partition) }

  /** The payload of a fetch response: a count and the framed records. */
  function FetchPayloadOf(rs: seq<R.Record>): seq<Byte> { PutU32(|rs|) + R.EncodeAll(rs) }

  function StorageCode(e: L.Error): ErrorCode { if e == L.MessageTooLarge then MessageTooLarge else StorageError }

  /** How a handler's wait ends: with a reply, with no actor to ask, or with an actor that is gone. */
  datatype Outcome = Replied(reply: L.Reply) | NoActor(why: B.Refusal) | ActorGone

  /** What the handler answers; `text` is the wording of an error. */
  function Respond(req: Request, outcome: Outcome, text: seq<Byte>): Response
  {
    var c := req.correlationId;
    match outcome
    case NoActor(NotRegistered) => ErrorResponse(c, PartitionNotFound, text)
    case NoActor(OpenFailed) => ErrorResponse(c, StorageError, text)
    case ActorGone => ErrorResponse(c, ServerError, text)
    case Replied(Assigned(Err(e))) => ErrorResponse(c, StorageCode(e), text)
    case Replied(Assigned(Ok(o))) =>
      if req.ProduceRequest? then ProduceResponse(c, req.topic, req.partition, o)
      else ProduceBatchResponse(c, req.topic, req.partition, o)
    case Replied(Fetched(rs)) =>
      if rs == [] then ErrorResponse(c, OffsetNotFound, text)
      else FetchResponse(c, req.topic, req.partition, FetchPayloadOf(rs))
  }

  /** The reply is of the kind that the request asks for, as every reply of an actor is. */
  predicate Fitting(req: Request, outcome: Outcome)
  {
    outcome.Replied? ==> (req.FetchRequest? <==> outcome.reply.Fetched?)
  }

  function CodeOf(code: ErrorCode): nat
  {
    match code
    case OffsetNotFound => 3
    case PartitionNotFound => 4
    case StorageError => 5
    case MessageTooLarge => 6
    case ServerError => 7
  }

  /** `Response::into_frame`. */
  function ResponseFrame(r: Response): Frame
  {
    match r
    case ProduceResponse(c, t, p, o) => Frame(MAGIC, Produce, c, t, p, PutU64(o))
    case ProduceBatchResponse(c, t, p, o) => Frame(MAGIC, ProduceBatch, c, t, p, PutU64(o))
    case FetchResponse(c, t, p, payload) => Frame(MAGIC, Fetch, c, t, p, payload)
    case ErrorResponse(c, code, text) => Frame(MAGIC, Error, c, [], 0, PutU16(CodeOf(code)) + text)
  }

  /** The loop of `handle_fetch` that fills the payload. */
  method BuildFetchPayload(rs: seq<R.Record>) returns (bytes: seq<Byte>)
    ensures bytes == FetchPayloadOf(rs)
  {
    hide PutU32, R.Encode;
    var buf := new BytesMut([]);
    buf.Put(PutU32(|rs|));
    for i := 0 to |rs|
      invariant buf.data + R.EncodeAll(rs[i..]) == FetchPayloadOf(rs)
    {
      assert rs[i..][0] == rs[i] && rs[i..][1..] == rs[i + 1..];
      ghost var before := buf.data;
      R.EncodeRecord(rs[i], buf);
      assert before + (R.Encode(rs[i]) + R.EncodeAll(rs[i + 1..])) == buf.data + R.EncodeAll(rs[i + 1..]);
    }
    bytes := buf.data;
  }

  /** A client reads back the count and exactly the records that were fetched. */
  lemma FetchPayloadRoundTrip(rs: seq<R.Record>)
    requires R.AllStorable(rs) && |rs| < U32_LIMIT
    ensures var s := FetchPayloadOf(rs);
            && GetU32(s) == |rs|
            && R.Scan(s[4..]) == R.Scanned(rs, R.SizeOf(rs), false)
  {
    hide PutU32, GetU32, R.EncodeAll, R.Scan, R.SizeOf;
    GetPutU32(|rs|, R.EncodeAll(rs));
    assert FetchPayloadOf(rs)[4..] == R.EncodeAll(rs);
    R.ScanOfWholeLog(rs);
  }

  /** The first record of a fetch response can be decoded on its own. */
  lemma FirstRecordDecodes(rs: seq<R.Record>)
    requires rs != [] && |FetchPayloadOf(rs)| < U32_LIMIT
    requires rs[0].offset < U64_LIMIT && rs[0].timestamp < U64_LIMIT
    ensures R.Decode(FetchPayloadOf(rs)[4..]) == R.Got(rs[0], R.EncodeAll(rs[1..]))
  {
    hide PutU32, R.Encode, R.Decode;
    assert FetchPayloadOf(rs)[4..] == R.Encode(rs[0]) + R.EncodeAll(rs[1..]);
    R.RoundTrip(rs[0], R.EncodeAll(rs[1..]));
  }

  /** A client that reads a produce response finds its own correlation id and the offset that was assigned. */
  lemma AcknowledgementReadsBack(req: Request, o: nat, text: seq<Byte>)
    requires !req.FetchRequest? && ValidFrame(IntoFrame(req)) && o < U64_LIMIT
    ensures var f := ResponseFrame(Respond(req, Replied(L.Assigned(L.Ok(o))), text));
            && Drain(Encode(f)) == Stream([f], [], None)
            && f.apiKey == IntoFrame(req).apiKey
            && f.correlationId == req.correlationId && f.topic == req.topic && f.partition == req.partition
            && |f.payload| == 8 && GetU64(f.payload) == o
  {
    hide PutU64, GetU64, Drain, Encode, Utf8;
    GetPutU64(o, []);
    assert PutU64(o) + [] == PutU64(o);
    OneFrameStream(ResponseFrame(Respond(req, Replied(L.Assigned(L.Ok(o))), text)));
  }

  /** The code that a client finds for each way in which a request fails. */
  function FailureCode(outcome: Outcome): nat
  {
    match outcome
    case NoActor(NotRegistered) => 4
    case NoActor(OpenFailed) => 5
    case ActorGone => 7
    case Replied(Assigned(Err(e))) => if e == L.MessageTooLarge then 6 else 5
    case Replied(_) => 3
  }

  /**
   * A request fails exactly if there was no actor to ask, if it is gone, if it answered with an error
   * or if nothing was found. Every failure is an error frame with the request's correlation id, which
   * a client can always read: it finds the code of the failure, followed by the text.
   */
  lemma ErrorReadsBack(req: Request, outcome: Outcome, text: seq<Byte>)
    requires req.correlationId < U32_LIMIT && MIN_HEADER_SIZE + 2 + |text| <= MAX_FRAME_SIZE && Fitting(req, outcome)
    ensures var r := Respond(req, outcome, text);
            var f := ResponseFrame(r);
            && (r.ErrorResponse? <==> || !outcome.Replied? || outcome.reply == L.Fetched([])
                                      || (outcome.reply.Assigned? && outcome.reply.offset.Err?))
            && (r.ErrorResponse? ==>
                  && Drain(Encode(f)) == Stream([f], [], None)
                  && f.apiKey == Error && f.correlationId == req.correlationId
                  && |f.payload| >= 2 && GetU16(f.payload) == FailureCode(outcome) && f.payload[2..] == text)
  {
    hide PutU16, GetU16, Drain, Encode;
    var r := Respond(req, outcome, text);
    if r.ErrorResponse? {
      GetPutU16(CodeOf(r.code), text);
      OneFrameStream(ResponseFrame(r));
    }
  }

  /** The outcome of a task that has ended. */
  function OutcomeOf(task: B.Task): Outcome
    requires task.Answered? || task.Refused?
  {
    if task.Answered? then Replied(task.reply) else NoActor(task.why)
  }

  /**
   * In every run, a refused fetch is told that the partition does not exist, and a refused produce of
   * a storage error.
   */
  lemma RefusedIsTold(x: Z.Execution, i: nat, t: nat, req: Request, text: seq<Byte>)
    requires Z.IsRun(x) && i < |x.states| && t in x.states[i].tasks && x.states[i].tasks[t].Refused?
    requires x.states[i].tasks[t].cmd == CommandOf(req)
    requires req.correlationId < U32_LIMIT && MIN_HEADER_SIZE + 2 + |text| <= MAX_FRAME_SIZE
    ensures var f := ResponseFrame(Respond(req, OutcomeOf(x.states[i].tasks[t]), text));
            && Drain(Encode(f)) == Stream([f], [], None) && f.correlationId == req.correlationId
            && |f.payload| >= 2 && GetU16(f.payload) == (if req.FetchRequest? then 4 else 5) && f.payload[2..] == text
  {
    hide Z.IsRun, Drain, Encode, GetU16, PutU16, B.ActorOk, B.LetterOk, B.ReplyOk, B.RegistryOk;
    Z.RunInv(x, i);
    assert B.TaskOk(x.states[i], t);
    ErrorReadsBack(req, OutcomeOf(x.states[i].tasks[t]), text);
  }

  /** The messages that a produce request carries. */
  function Messages(req: Request): seq<seq<Byte>>
  {
    match req
    case ProduceRequest(_, _, _, payload) => [payload]
    case ProduceBatchRequest(_, _, _, payloads) => payloads
    case FetchRequest(_, _, _, _, _) => []
  }

  lemma MessagesArePayloads(req: Request)
    ensures var ps := Z.Payloads(CommandOf(req));
            |ps| == |Messages(req)| && forall n :: 0 <= n < |ps| ==> ps[n] == L.ValueOnly(Messages(req)[n])
  {
  }

  /** However its bytes are cut into chunks, the client reads exactly this frame. */
  ghost predicate Received(f: Frame)
  {
    forall chunks :: Concat(chunks) == Encode(f) ==> FeedAll(chunks) == Stream([f], [], None)
  }

  /** However its bytes are cut into chunks, the client does not read this frame. */
  ghost predicate NeverReceived(f: Frame)
  {
    forall chunks :: Concat(chunks) == Encode(f) ==> f !in FeedAll(chunks).frames
  }

  lemma ReceivedIff(f: Frame)
    ensures ValidFrame(f) ==> Received(f)
    ensures !ValidFrame(f) ==> NeverReceived(f)
  {
    hide Encode, ValidFrame, Drain, FeedAll, Concat;
    if ValidFrame(f) {
      OneFrameStream(f);
    }
    forall chunks | Concat(chunks) == Encode(f)
      ensures ValidFrame(f) ==> FeedAll(chunks) == Stream([f], [], None)
      ensures !ValidFrame(f) ==> f !in FeedAll(chunks).frames
    {
      ChunkingDoesNotMatter(chunks);
      if f in Drain(Encode(f)).frames {
        DrainedAreValid(Encode(f), f);
      }
    }
  }

  /** The frame answers this request: it has its kind, its correlation id, its topic and its partition. */
  predicate Answers(f: Frame, req: Request)
  {
    && f.apiKey == (if req.ProduceRequest? then Produce else if req.FetchRequest? then Fetch else ProduceBatch)
    && f.correlationId == req.correlationId && f.topic == req.topic && f.partition == req.partition
  }

  /**
   * From frame to frame: an accepted frame goes to the partition that its own fields name, with the
   * command that its own payload says, and whatever comes of it, the response frame carries its
   * correlation id. Unless it is an error, it carries its api key, topic and partition as well.
   */
  lemma FrameToFrame(f: Frame, outcome: Outcome, text: seq<Byte>)
    requires FromFrame(f).Accepted? && Fitting(FromFrame(f).value, outcome)
    ensures var req := FromFrame(f).value;
            var response := ResponseFrame(Respond(req, outcome, text));
            && KeyOfRequest(req) == B.Key(f.topic, f.partition)
            && (f.apiKey == Produce ==> CommandOf(req) == L.Produce(L.Payload(None, Some(f.payload))))
            && (f.apiKey == Fetch ==>
                  |f.payload| == 12 && CommandOf(req) == L.FetchFrom(GetU64(f.payload), GetU32(f.payload[8..])))
            && (f.apiKey == ProduceBatch ==>
                  && CommandOf(req).ProduceBatch? && |f.payload| >= 4
                  && |CommandOf(req).payloads| == GetU32(f.payload)
                  && forall i :: 0 <= i < GetU32(f.payload) ==> ItemIn(f.payload[4..], CommandOf(req).payloads, i))
            && response.magic == MAGIC && response.correlationId == f.correlationId
            && (response.apiKey == Error ||
                (response.apiKey == f.apiKey && response.topic == f.topic && response.partition == f.partition))
  {
    hide GetU32, GetU64, FromFrame, FetchPayloadOf, ItemIn;
    AcceptedFields(f);
  }

  /** The size of the response that carries these records: header, topic, count and records. */
  function ResponseSize(topic: seq<Byte>, rs: seq<R.Record>): nat { MIN_HEADER_SIZE + |topic| + 4 + R.SizeOf(rs) }

  /** The size of a response with one record that has no key and this value. */
  function SingleSize(topic: seq<Byte>, message: seq<Byte>): nat
  {
    MIN_HEADER_SIZE + |topic| + 4 + R.OVERHEAD + |message|
  }

  /**
   * The handler does not bound a fetch response. A client reads it exactly if it fits in a frame. If
   * it does not, the client's stream fails, unless the size is so large that it wraps around.
   */
  lemma FetchReadsBackIff(req: Request, rs: seq<R.Record>)
    requires ValidFrame(IntoFrame(req)) && req.FetchRequest? && rs != []
    ensures var f, n := ResponseFrame(Respond(req, Replied(L.Fetched(rs)), [])), ResponseSize(req.topic, rs);
            && Answers(f, req) && f.payload == FetchPayloadOf(rs)
            && (if n <= MAX_FRAME_SIZE then Received(f) else NeverReceived(f))
            && (MAX_FRAME_SIZE < n < U32_LIMIT ==>
                  forall chunks :: Concat(chunks) == Encode(f) ==>
                                     FeedAll(chunks) == Stream([], [], Some(FrameTooLarge(n))))
  {
    hide Utf8, R.SizeOf, PutU32, Received, NeverReceived, Encode, Drain, FeedAll, Concat;
    var f, n := ResponseFrame(Respond(req, Replied(L.Fetched(rs)), [])), ResponseSize(req.topic, rs);
    assert |FetchPayloadOf(rs)| == 4 + R.SizeOf(rs) by { PayloadSize(rs); }
    assert BodyLen(f) == n && (ValidFrame(f) <==> n <= MAX_FRAME_SIZE);
    ReceivedIff(f);
    if MAX_FRAME_SIZE < n < U32_LIMIT {
      TooLongFails(f);
      forall chunks | Concat(chunks) == Encode(f)
        ensures FeedAll(chunks) == Stream([], [], Some(FrameTooLarge(n)))
      {
        ChunkingDoesNotMatter(chunks);
      }
    }
  }

  lemma PayloadSize(rs: seq<R.Record>)
    ensures |FetchPayloadOf(rs)| == 4 + R.SizeOf(rs)
  {
  }

  /** Records of which the first has no key and this value, and what their response takes at least. */
  lemma StartsWith(topic: seq<Byte>, rs: seq<R.Record>, message: seq<Byte>)
    requires rs != [] && rs[0].key == None && rs[0].value == Some(message)
    ensures ResponseSize(topic, rs) >= SingleSize(topic, message)
    ensures |rs| == 1 ==> ResponseSize(topic, rs) == SingleSize(topic, message)
  {
    hide R.SizeOf, R.EncodeAll;
    R.EncodeAllOne(rs[0]);
    R.EncodeAllConcat([rs[0]], rs[1..]);
    assert rs == [rs[0]] + rs[1..];
    if |rs| == 1 {
      assert rs == [rs[0]];
    }
  }

  /**
   * On every log, a message whose produce frame is valid but less than 32 bytes short of the limit is
   * accepted if a segment can take it, and then no client can read the answer to any fetch at its
   * offset.
   */
  lemma AcceptedButUnreadable(log: L.Log, produce: Request, fetch: Request, clock: nat -> nat)
    requires L.WellFormed(log) && log.segs != []
    requires produce.ProduceRequest? && ValidFrame(IntoFrame(produce)) && R.OVERHEAD + |produce.payload| <= log.max
    requires MIN_HEADER_SIZE + |produce.topic| + |produce.payload| > MAX_FRAME_SIZE - 4 - R.OVERHEAD
    requires fetch.FetchRequest? && ValidFrame(IntoFrame(fetch)) && fetch.topic == produce.topic
    requires fetch.offset == L.Next(log) && fetch.maxBytes > 0
    ensures var (stored, ack) := L.Exec(log, CommandOf(produce), clock);
            var reply := L.Exec(stored, CommandOf(fetch), clock).1;
            && ack == L.Assigned(L.Ok(fetch.offset))
            && reply.Fetched? && reply.records != [] && reply.records[0].value == Some(produce.payload)
            && NeverReceived(ResponseFrame(Respond(fetch, Replied(reply), [])))
  {
    hide L.WellFormed, L.Fetch, L.Flat, L.Place, R.SizeOf, ValidFrame, NeverReceived, Received;
    var p := L.ValueOnly(produce.payload);
    A.PlaceGrows(log, p, clock);
    A.PlaceKeeps(log, p, clock);
    var stored := L.Place(log, p, clock);
    Z.FetchGivesRecord(stored, fetch.offset, fetch.maxBytes);
    var rs := L.Fetch(stored, fetch.offset, fetch.maxBytes);
    StartsWith(fetch.topic, rs, produce.payload);
    FetchReadsBackIff(fetch, rs);
  }

  /** The task has the answer to this request. */
  ghost predicate Asked(x: Z.Execution, i: nat, t: nat, req: Request)
  {
    && i < |x.states| && t in x.states[i].tasks && x.states[i].tasks[t].Answered?
    && x.states[i].tasks[t].cmd == CommandOf(req) && x.states[i].tasks[t].key == KeyOfRequest(req)
  }

  /** The jobs of its partition up to and including this task's. */
  ghost predicate InStorageRange(x: Z.Execution, i: nat, t: nat)
    requires i < |x.states| && t in x.states[i].tasks && x.states[i].tasks[t].Answered?
  {
    var s, task := x.states[i], x.states[i].tasks[t];
    && task.actor < |s.actors| && task.ticket < |s.actors[task.actor].served|
    && S.WithinRanges(x.cfg.disk(task.key), S.DoneBy(s, task.actor, task.ticket + 1))
  }

  /**
   * End to end: take any run and a message `n` of an acknowledged produce that is fetched at its
   * offset, with a budget, by a request sent after the acknowledgement. Open the partition from its
   * files, run its actor loop on the commands that its mailbox accepted up to the fetch, and build
   * the response from the reply. That is the response the run gives. If it fits in a frame then,
   * however it is cut into chunks on the wire, the client reads exactly that frame, and its first
   * record has the fetched offset, no key and the bytes of the message; if it does not fit, the client
   * never reads it. It fits if the budget and the message alone do, and never does if the message
   * alone does not. This needs a partition that is intact.
   */
  method ProducedIsFetched(
    x: Z.Execution, i: nat, j: nat, t: nat, u: nat, produce: Request, fetch: Request, n: nat,
    dir: map<nat, G.FilePair>, listing: seq<nat>, ghost gaps: seq<G.Span>)
    returns (response: Response)
    requires Z.IsRun(x) && i <= j < |x.states| && Asked(x, i, t, produce) && Asked(x, j, u, fetch)
    requires Z.Acknowledged(x.states[i].tasks[t].reply) && n < |Messages(produce)| && Z.NotSent(x.states[i], u)
    requires fetch.FetchRequest? && KeyOfRequest(fetch) == KeyOfRequest(produce)
    requires fetch.offset == x.states[i].tasks[t].reply.offset.value + n < U64_LIMIT && fetch.maxBytes > 0
    requires Z.IntactTask(x, j, u) && InStorageRange(x, j, u)
    requires S.FilesOf(x.cfg, KeyOfRequest(fetch), dir, gaps) && P.Lists(listing, dir)
    requires ValidFrame(IntoFrame(fetch))
    ensures x.states[j].tasks[u].reply.Fetched?
    ensures response == Respond(fetch, Replied(x.states[j].tasks[u].reply), []) && response.FetchResponse?
    ensures Answers(ResponseFrame(response), fetch)
    ensures if ResponseSize(fetch.topic, x.states[j].tasks[u].reply.records) <= MAX_FRAME_SIZE
            then
              && Received(ResponseFrame(response))
              && |response.payload| >= 4
              && var first := R.Decode(response.payload[4..]);
              && first.Got? && first.record == x.states[j].tasks[u].reply.records[0]
              && Z.HasTimeOf(x, j, t, first.record)
              && first.record.offset == fetch.offset
              && first.record.key == None
              && first.record.value == Some(Messages(produce)[n])
            else NeverReceived(ResponseFrame(response))
    ensures SingleSize(fetch.topic, Messages(produce)[n]) > MAX_FRAME_SIZE ==> NeverReceived(ResponseFrame(response))
    ensures && SingleSize(fetch.topic, Messages(produce)[n]) <= MAX_FRAME_SIZE
            && MIN_HEADER_SIZE + |fetch.topic| + 4 + fetch.maxBytes <= MAX_FRAME_SIZE
            ==> Received(ResponseFrame(response))
  {
    hide Z.IsRun, Z.Payloads, Z.Intact, Utf8, R.Decode, R.EncodeAll, R.SizeOf, S.WithinRanges, S.FilesOf, P.Lists,
         ValidFrame, PutU32, Received, NeverReceived, S.IntactFor;
    MessagesArePayloads(produce);
    Z.FetchSeesAcknowledged(x, i, j, t, u, n);
    Served(x, j, u);
    var task := x.states[j].tasks[u];
    var p, replies := S.StorageAnswers(x, j, task.actor, task.ticket + 1, dir, listing, gaps);
    ServedInTime(x, j, u, |replies|);
    var rs := replies[task.ticket].records;
    var payload := BuildFetchPayload(rs);
    response := FetchResponse(fetch.correlationId, fetch.topic, fetch.partition, payload);
    StartsWith(fetch.topic, rs, Messages(produce)[n]);
    FetchReadsBackIff(fetch, rs);
    if ResponseSize(fetch.topic, rs) <= MAX_FRAME_SIZE {
      PayloadSize(rs);
      FirstRecordDecodes(rs);
    }
  }

  /** What the bridge to storage needs to know about an answered task. */
  lemma Served(x: Z.Execution, i: nat, t: nat)
    requires Z.IsRun(x) && i < |x.states| && t in x.states[i].tasks && x.states[i].tasks[t].Answered?
    requires Z.IntactTask(x, i, t)
    ensures var s, task := x.states[i], x.states[i].tasks[t];
            && task.actor < |s.actors| && s.actors[task.actor].key == task.key
            && task.ticket < |s.actors[task.actor].served|
            && s.actors[task.actor].served[task.ticket].reply == task.reply
            && x.cfg.disk(task.key).segs != []
            && S.IntactFor(x, i, task.actor, task.ticket)
  {
    hide Z.IsRun, C.NeverMisplaced, B.OpenTail, B.ActorOk, B.LetterOk, B.ReplyOk, B.RegistryOk;
    Z.RunInv(x, i);
    assert B.TaskOk(x.states[i], t);
  }

  /** On an intact partition no earlier fetch has stopped the actor. */
  lemma ServedInTime(x: Z.Execution, i: nat, t: nat, n: nat)
    requires i < |x.states| && t in x.states[i].tasks && x.states[i].tasks[t].Answered?
    requires var s, task := x.states[i], x.states[i].tasks[t];
             && task.actor < |s.actors| && task.ticket < |s.actors[task.actor].served|
             && x.cfg.disk(s.actors[task.actor].key).segs != []
             && S.IntactFor(x, i, task.actor, task.ticket)
    ensures n <= x.states[i].tasks[t].ticket ==> S.IntactFor(x, i, x.states[i].tasks[t].actor, n)
  {
    hide C.NeverMisplaced, B.OpenTail;
    var s, task := x.states[i], x.states[i].tasks[t];
    var k, done := s.actors[task.actor].key, S.DoneBy(s, task.actor, task.ticket);
    if n <= task.ticket {
      C.MisplacedPrefix(x.cfg.disk(k), B.OpenTail(x.cfg, k), done, n);
      assert done[..n] == S.DoneBy(s, task.actor, n);
    }
  }

  lemma OneFrameStream(f: Frame)
    requires ValidFrame(f)
    ensures Drain(Encode(f)) == Stream([f], [], None)
  {
    hide Encode, ValidFrame, Drain;
    StreamRoundTrip([f]);
    assert [f][1..] == [] && Encode(f) + EncodeAll([]) == Encode(f);
  }
}
