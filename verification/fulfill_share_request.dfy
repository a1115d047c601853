/**
 * The share-request fulfilment handler.
 *
 * An anonymous caller addresses a pending `FILE_REQUEST` share by its id.
 * A GET returns the request's title; any other method submits the metadata
 * of the file to upload: the handler starts a multipart upload with one part
 * per started 200 MiB, writes the share record back with the uploaded file's
 * name, object id and upload session id, and answers with the part upload
 * URLs. Absent, expired and wrong-type records all get the same bare 404.
 *
 * The handler is a chain of early returns over the results of three I/O
 * calls (a table read, the upload service, a table write). Here those
 * results are inputs (`Environment`), and the handler is a pure function
 * from the event and the environment to an `Outcome` that records the
 * response and every call the handler issued.
 */
module FulfillShareRequest {
  import opened Wrappers

  /** A DynamoDB attribute value, reduced to the kinds the handler tells apart. */
  datatype AttributeValue =
    | S(s: string)   // a string attribute
    | N(n: int)      // a number attribute (integral values only)
    | Other          // any other kind (BOOL, M, L, B, ...): its `.S` and `.N` are undefined

  /** A table item: attribute name to attribute value. */
  type Record = map<string, AttributeValue>

  const KeyPrefix: string := "SHARE#"
  const FileRequestType: string := "FILE_REQUEST"
  /** 200 MiB: the size of one upload part. */
  const PartSize: int := 200 * 1024 * 1024

  /** The composite primary key of a share record. */
  datatype Key = Key(pk: string, sk: string)

  /** The request body after validation. */
  datatype FulfillDto = FulfillDto(fileName: string, fileType: string, fileSize: int)

  /** What the upload service returns when it starts a multipart upload. */
  datatype UploadInfo = UploadInfo(fileId: string, uploadId: string, partUrls: seq<string>)

  /**
   * The parts of the HTTP event the handler looks at. `body` is `None` when
   * the validator rejects the request body (it throws).
   */
  datatype Event = Event(pathId: Option<string>, httpMethod: string, body: Option<FulfillDto>)

  /** The result of the table read: it throws, finds nothing, or finds an item. */
  datatype ReadResult = ReadFailed | Absent | Found(share: Record)

  /**
   * The outside world as the handler sees it: the clock (milliseconds), the
   * item the read returns, the upload service's answer (`None`: it throws)
   * and whether the write succeeds.
   */
  datatype Environment = Environment(nowMs: int, read: ReadResult, upload: Option<UploadInfo>, putSucceeds: bool)

  datatype Body =
    | NoBody
    | Message(message: string)
    | TitleBody(title: Option<string>)   // `None`: the title is not a string and JSON drops it
    | UploadUrlsBody(uploadUrls: seq<string>)

  datatype Response = Response(statusCode: int, jsonContentType: bool, body: Body)

  /** The arguments of the one call to the upload service. */
  datatype UploadCall = UploadCall(parts: int, fileType: string)

  /**
   * What one invocation did: the response, the key it read (if it read),
   * the upload it started (if it called the upload service) and the item it
   * wrote (if it issued the write, whether or not the write succeeded).
   */
  datatype Outcome = Outcome(response: Response, lookup: Option<Key>, upload: Option<UploadCall>, put: Option<Record>)

  const BadRequest := Response(400, true, Message("THe provided Id is invalid"))
  const NotFound := Response(404, false, NoBody)
  const ServerError := Response(500, true, Message("Unable to connect to Database"))

  /**
   * JavaScript's `!id` is false: the path id is neither `undefined` nor the
   * empty string, the two falsy values a path parameter can take.
   */
  function ValidId(pathId: Option<string>): (ok: bool)
    ensures !ok <==> pathId == None || pathId == Some("")
    ensures ok ==> |ShareKey(pathId.value).pk| > |KeyPrefix|
  {
    pathId.Some? && pathId.value != ""
  }

  /** Both halves of the key are the id behind the `SHARE#` prefix. */
  function ShareKey(id: string): (k: Key)
    ensures k.pk == k.sk
    ensures |k.pk| == |KeyPrefix| + |id|
    ensures k.pk[..|KeyPrefix|] == KeyPrefix && k.pk[|KeyPrefix|..] == id
  {
    Key(KeyPrefix + id, KeyPrefix + id)
  }

  /** Distinct share ids address distinct records. */
  lemma ShareKeyInjective(a: string, b: string)
    ensures ShareKey(a) == ShareKey(b) ==> a == b
  {
    if ShareKey(a) == ShareKey(b) {
      calc {
        a;
        ShareKey(a).pk[|KeyPrefix|..];
        ShareKey(b).pk[|KeyPrefix|..];
        b;
      }
    }
  }

  /** The largest distance from the epoch, in milliseconds, of a valid JavaScript `Date`. */
  const MaxDateMs: int := 8_640_000_000_000_000

  /**
   * `expire` holds Unix seconds; the share is expired when the date at
   * `expire * 1000` milliseconds is strictly before now. A non-number
   * `expire` reads as NaN, and a date beyond `MaxDateMs` either side of the
   * epoch is invalid; an invalid date is never before anything.
   */
  function IsExpired(share: Record, nowMs: int): (expired: bool)
    ensures expired ==> "expire" in share && share["expire"].N?
    ensures expired ==> -MaxDateMs <= share["expire"].n * 1000 <= MaxDateMs
  {
    && "expire" in share
    && share["expire"].N?
    && -MaxDateMs <= share["expire"].n * 1000 <= MaxDateMs
    && share["expire"].n * 1000 < nowMs
  }

  /** Once a share has expired it stays expired. */
  lemma ExpiryMonotone(share: Record, earlier: int, later: int)
    requires earlier <= later && IsExpired(share, earlier)
    ensures IsExpired(share, later)
  {
  }

  /** An `expire` that is not a number, or lies outside the `Date` range, never expires. */
  lemma InvalidExpiryNeverExpires(share: Record, nowMs: int)
    requires "expire" in share
    requires !share["expire"].N? || share["expire"].n * 1000 < -MaxDateMs || share["expire"].n * 1000 > MaxDateMs
    ensures !IsExpired(share, nowMs)
  {
  }

  /** A share that the handler serves: an unexpired `FILE_REQUEST`. */
  function Live(share: Record, nowMs: int): (live: bool)
    ensures live ==> forall earlier | earlier <= nowMs :: !IsExpired(share, earlier)
    ensures live <==> CheckShare(share, nowMs) == Pending
  {
    && "expire" in share
    && !IsExpired(share, nowMs)
    && "type" in share
    && share["type"] == S(FileRequestType)
  }

  datatype Verdict = Pending | Rejected | Faulted

  /**
   * The existence/expiry/type guard. Reading `.N` of a missing `expire` or
   * `.S` of a missing `type` throws (`Faulted`); the type is only read when
   * the share is not expired.
   */
  function CheckShare(share: Record, nowMs: int): (v: Verdict)
    ensures v == Faulted <==> "expire" !in share || (!IsExpired(share, nowMs) && "type" !in share)
    ensures v == Rejected <==>
      "expire" in share && (IsExpired(share, nowMs) || ("type" in share && share["type"] != S(FileRequestType)))
  {
    if "expire" !in share then Faulted
    else if IsExpired(share, nowMs) then Rejected
    else if "type" !in share then Faulted
    else if share["type"] == S(FileRequestType) then Pending
    else Rejected
  }

  /** `share.title.S`: undefined unless the title is a string attribute. */
  function TitleOf(v: AttributeValue): (title: Option<string>)
    ensures title.Some? <==> v.S?
    ensures title.Some? ==> v == S(title.value)
  {
    if v.S? then Some(v.s) else None
  }

  /**
   * The number of upload parts: the least integer `parts` with
   * `parts * 200 MiB >= fileSize`, i.e. `ceil(fileSize / 200 MiB)`.
   */
  function PartCount(fileSize: int): (parts: int)
    ensures (parts - 1) * PartSize < fileSize <= parts * PartSize
  {
    (fileSize + PartSize - 1) / PartSize
  }

  /**
   * The item written back: the share read, with `fileName`, `file` and
   * `uploadId` set, and every other attribute as it was.
   */
  function Fulfilled(share: Record, dto: FulfillDto, info: UploadInfo): (item: Record)
    ensures item.Keys == share.Keys + {"fileName", "file", "uploadId"}
    ensures item["fileName"] == S(dto.fileName)
    ensures item["file"] == S(info.fileId)
    ensures item["uploadId"] == S(info.uploadId)
    ensures forall k | k in share && k != "fileName" && k != "file" && k != "uploadId" :: item[k] == share[k]
  {
    share["fileName" := S(dto.fileName)]["file" := S(info.fileId)]["uploadId" := S(info.uploadId)]
  }

  /** The handler. */
  function Handle(event: Event, env: Environment): (o: Outcome)
    ensures o.response.statusCode in {200, 400, 404, 500}
    ensures o.response.statusCode == 400 <==> !ValidId(event.pathId)
    ensures o.lookup.None? <==> !ValidId(event.pathId)
    ensures o.lookup.Some? ==> o.lookup.value == ShareKey(event.pathId.value)
    ensures o.upload.Some? ==> event.httpMethod != "GET" && event.body.Some? && env.read.Found?
    ensures o.put.Some? ==> o.upload.Some? && env.upload.Some?
    ensures o.response.statusCode == 200 && event.httpMethod != "GET" ==> o.put.Some? && env.putSucceeds
  {
    if !ValidId(event.pathId) then Outcome(BadRequest, None, None, None)
    else
      var key := ShareKey(event.pathId.value);
      match env.read
      case ReadFailed => Outcome(ServerError, Some(key), None, None)
      case Absent => Outcome(NotFound, Some(key), None, None)
      case Found(share) =>
        match CheckShare(share, env.nowMs)
        case Faulted => Outcome(ServerError, Some(key), None, None)
        case Rejected => Outcome(NotFound, Some(key), None, None)
        case Pending =>
          if event.httpMethod == "GET" then
            if "title" !in share then Outcome(ServerError, Some(key), None, None)
            else Outcome(Response(200, false, TitleBody(TitleOf(share["title"]))), Some(key), None, None)
          else
            match event.body
            case None => Outcome(ServerError, Some(key), None, None)
            case Some(dto) =>
              var call := UploadCall(PartCount(dto.fileSize), dto.fileType);
              match env.upload
              case None => Outcome(ServerError, Some(key), Some(call), None)
              case Some(info) =>
                var item := Fulfilled(share, dto, info);
                if env.putSucceeds then
                  Outcome(Response(200, true, UploadUrlsBody(info.partUrls)), Some(key), Some(call), Some(item))
                else
                  Outcome(ServerError, Some(key), Some(call), Some(item))
  }

  // ---------------------------------------------------------------------
  // The guard lattice: which inputs give which status.
  // ---------------------------------------------------------------------

  /** A missing or empty id gets the 400 and nothing is read, started or written. */
  lemma InvalidIdTouchesNothing(event: Event, env: Environment)
    requires !ValidId(event.pathId)
    ensures Handle(event, env) == Outcome(BadRequest, None, None, None)
  {
  }

  /**
   * 404 exactly for an absent record, an expired one, or an unexpired one
   * whose type is not `FILE_REQUEST`; and every 404 is the same bare
   * response, after the read only.
   */
  lemma NotFoundExactly(event: Event, env: Environment)
    ensures Handle(event, env).response.statusCode == 404 <==>
      && ValidId(event.pathId)
      && (|| env.read.Absent?
          || (&& env.read.Found?
              && "expire" in env.read.share
              && (|| IsExpired(env.read.share, env.nowMs)
                  || ("type" in env.read.share && env.read.share["type"] != S(FileRequestType)))))
    ensures Handle(event, env).response.statusCode == 404 ==>
      Handle(event, env) == Outcome(NotFound, Some(ShareKey(event.pathId.value)), None, None)
  {
  }

  /**
   * The three not-found causes cannot be told apart: whatever the method,
   * body and upload/write behaviour, an absent, an expired and a wrong-type
   * record give identical outcomes.
   */
  lemma NotFoundCausesIndistinguishable(event: Event, nowMs: int, expired: Record, wrongType: Record,
                                        upload: Option<UploadInfo>, putSucceeds: bool)
    requires ValidId(event.pathId)
    requires IsExpired(expired, nowMs)
    requires "expire" in wrongType && !IsExpired(wrongType, nowMs)
    requires "type" in wrongType && wrongType["type"] != S(FileRequestType)
    ensures Handle(event, Environment(nowMs, Absent, upload, putSucceeds))
         == Handle(event, Environment(nowMs, Found(expired), upload, putSucceeds))
         == Handle(event, Environment(nowMs, Found(wrongType), upload, putSucceeds))
  {
  }

  /**
   * 500 exactly when something throws: the read, a missing `expire` or
   * `type` attribute, a missing title on GET, or on another method the body
   * validation, the upload service or the write.
   */
  lemma ServerErrorExactly(event: Event, env: Environment)
    ensures Handle(event, env).response.statusCode == 500 <==>
      && ValidId(event.pathId)
      && (|| env.read.ReadFailed?
          || (&& env.read.Found?
              && (|| "expire" !in env.read.share
                  || (!IsExpired(env.read.share, env.nowMs) && "type" !in env.read.share)
                  || (&& Live(env.read.share, env.nowMs)
                      && (if event.httpMethod == "GET" then "title" !in env.read.share
                          else event.body.None? || env.upload.None? || !env.putSucceeds)))))
    ensures Handle(event, env).response.statusCode == 500 ==> Handle(event, env).response == ServerError
  {
  }

  /** 200 exactly on a live share when nothing throws. */
  lemma SuccessExactly(event: Event, env: Environment)
    ensures Handle(event, env).response.statusCode == 200 <==>
      && ValidId(event.pathId)
      && env.read.Found?
      && Live(env.read.share, env.nowMs)
      && (if event.httpMethod == "GET" then "title" in env.read.share
          else event.body.Some? && env.upload.Some? && env.putSucceeds)
  {
  }

  /** `expire * 1000 == now` is not expired yet; one millisecond later it is. */
  lemma ExpiryBoundary(share: Record, nowMs: int)
    requires "expire" in share && share["expire"].N? && share["expire"].n * 1000 == nowMs
    requires -MaxDateMs <= nowMs <= MaxDateMs
    requires "type" in share && share["type"] == S(FileRequestType)
    ensures Live(share, nowMs)
    ensures !Live(share, nowMs + 1) && CheckShare(share, nowMs + 1) == Rejected
  {
  }

  // ---------------------------------------------------------------------
  // The two successful branches.
  // ---------------------------------------------------------------------

  /** A GET on a live request returns its title and nothing else, and writes nothing. */
  lemma GetReturnsTitleOnly(event: Event, env: Environment)
    requires ValidId(event.pathId) && event.httpMethod == "GET"
    requires env.read.Found? && Live(env.read.share, env.nowMs) && "title" in env.read.share
    ensures Handle(event, env) ==
      Outcome(Response(200, false, TitleBody(if env.read.share["title"].S? then Some(env.read.share["title"].s) else None)),
              Some(ShareKey(event.pathId.value)), None, None)
  {
  }

  /**
   * An `expire` millennia in the past is an invalid date, so the share is
   * not expired: a GET on it is served.
   */
  lemma FarPastExpiryIsServed(event: Event, env: Environment)
    requires ValidId(event.pathId) && event.httpMethod == "GET"
    requires env.read == Found(map["expire" := N(-10_000_000_000_000), "type" := S(FileRequestType), "title" := S("Tax forms")])
    ensures Handle(event, env).response == Response(200, false, TitleBody(Some("Tax forms")))
  {
  }

  /**
   * A submission on a live request starts an upload with `ceil(size / 200 MiB)`
   * parts of the declared type, writes the read record with the three upload
   * attributes set, and, when the write succeeds, answers with exactly the
   * part URLs the upload service returned.
   */
  lemma PostFulfils(event: Event, env: Environment)
    requires ValidId(event.pathId) && event.httpMethod != "GET" && event.body.Some?
    requires env.read.Found? && Live(env.read.share, env.nowMs) && env.upload.Some?
    ensures Handle(event, env).upload == Some(UploadCall(PartCount(event.body.value.fileSize), event.body.value.fileType))
    ensures Handle(event, env).put == Some(Fulfilled(env.read.share, event.body.value, env.upload.value))
    ensures Handle(event, env).response ==
      if env.putSucceeds then Response(200, true, UploadUrlsBody(env.upload.value.partUrls)) else ServerError
  {
  }

  /**
   * The written item keeps the record's key, type, title and expiry, so the
   * record stays live and a second submission is served again: there is no
   * "already fulfilled" outcome. The second write replaces the first
   * submission's file name, object id and upload id outright.
   */
  lemma {:induction false} RepeatedPostOverwrites(event1: Event, env1: Environment, event2: Event, env2: Environment)
    requires event2.pathId == event1.pathId
    requires event1.httpMethod != "GET" && event2.httpMethod != "GET"
    requires env1.read.Found? && Handle(event1, env1).response.statusCode == 200
    requires env2.read == Found(Handle(event1, env1).put.value)
    requires !IsExpired(env1.read.share, env2.nowMs)
    requires event2.body.Some? && env2.upload.Some? && env2.putSucceeds
    ensures Handle(event2, env2).response == Response(200, true, UploadUrlsBody(env2.upload.value.partUrls))
    ensures Handle(event2, env2).put == Some(Fulfilled(env1.read.share, event2.body.value, env2.upload.value))
  {
    var share := env1.read.share;
    var first := Fulfilled(share, event1.body.value, env1.upload.value);
    var dto, info := event2.body.value, env2.upload.value;
    assert Handle(event1, env1).put == Some(first);
    assert first["expire"] == share["expire"] && first["type"] == share["type"];
    assert Live(first, env2.nowMs);
    var again := Fulfilled(first, dto, info);
    var direct := Fulfilled(share, dto, info);
    assert again.Keys == direct.Keys;
    forall k | k in again
      ensures again[k] == direct[k]
    {
    }
    assert again == direct;
  }

  // ---------------------------------------------------------------------
  // Part-count arithmetic.
  // ---------------------------------------------------------------------

  lemma PartCountExamples()
    ensures PartCount(500000000) == 3
    ensures PartCount(0) == 0
    ensures PartCount(1) == 1
    ensures PartCount(PartSize) == 1
    ensures PartCount(PartSize + 1) == 2
  {
  }

  /** An exact multiple of 200 MiB needs exactly that many parts. */
  lemma PartCountOfMultiple(k: int)
    ensures PartCount(k * PartSize) == k
  {
  }

  /**
   * A non-empty file gets at least one part and no part beyond the last one
   * it needs; an empty file gets none (there is no minimum of one part).
   */
  lemma PartCountBounds(fileSize: int)
    ensures fileSize == 0 ==> PartCount(fileSize) == 0
    ensures fileSize > 0 ==> 1 <= PartCount(fileSize) && PartCount(fileSize) * PartSize - fileSize < PartSize
  {
  }
}
