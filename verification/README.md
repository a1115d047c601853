# Share requests and click counting, modelled in Dafny

This project models two serverless functions of a file-sharing service.

- **Share-request fulfilment** (`fulfill_share_request.dfy`, module `FulfillShareRequest`).
  A user can create a `FILE_REQUEST` share that asks someone else for a file. The share id in the URL
  is the only credential. A GET on the id returns the request's title. Any other method submits the
  file's name, type and size. The handler then starts a multipart upload with one part per started
  200 MiB (209,715,200 bytes). It writes the share record back with the file name, the object id and
  the upload session id, and returns the part upload URLs. An absent record, an expired record and a
  record of another type all get the same bare 404.
  The handler is a chain of early returns around three I/O calls. The model is one pure function,
  `Handle(event, env)`. The results of the I/O calls come in as data in `Environment`: the table read
  (fails / absent / found item), the upload service's answer (throws / `UploadInfo`), whether the write
  succeeds, and the clock in milliseconds. The result `Outcome` holds the response (status,
  JSON content-type header, body). It also records the key that was read, the arguments passed to the
  upload service and the item that was written.
- **Click-log aggregation** (`parse_log.dfy`, module `ParseLog`). The job reads the parsed lines of a
  CDN access log and counts visits of share links. A line whose URI stem contains `/d/<share id>`
  counts as one click on that share on the line's date. The job counts clicks per (share id, date) in
  an insertion-ordered map keyed by `shareId-date` and returns the map's values in insertion order.
  The JavaScript `Map` is the class `ClickDataMap`, and the loop is the method `ProcessLogs`.
  `ProcessLogs` is proved equal to a reference definition, `ExpectedClickData`: the distinct
  (share id, date) pairs in order of first occurrence, each with its multiset count. The properties
  of the result are lemmas about that definition.

`wrappers.dfy` holds the `Option` type both modules use.

### Where the code and the system's design description differ (the model follows the code)

- The design calls for at most one successful fulfilment per request, with a conditional write and an
  "already fulfilled" error. The code's write is unconditional, and it never checks whether `file` is
  already set. The model therefore has no such outcome. `RepeatedPostOverwrites` proves that a second
  submission is served again and replaces the first one's `fileName`, `file` and `uploadId`.
- The design asks for at least one upload part. The code computes a plain `ceil(size / 200 MiB)`, so
  an empty file gets 0 parts (`PartCountBounds`).
- The design treats malformed input as a validation failure. In the code the validator throws inside
  the `try`, so a rejected body gets the generic 500 (`ServerErrorExactly`).

## Model

| member | source | states |
|---|---|---|
| `FulfillShareRequest.Handle` | lambda/nodejs/src/functions/fullfillShareRequest/index.ts:12-120 | The status is always 200, 400, 404 or 500. It is 400 exactly when the path id is missing or empty. The table is read exactly when the id is valid, and then under `ShareKey(id)`. The upload service is called only for a non-GET with a valid body on a found record. A write is issued only after the upload service answered. A non-GET 200 means the write was issued and succeeded. |
| `FulfillShareRequest.ValidId` | lambda/nodejs/src/functions/fullfillShareRequest/index.ts:13-15 | `!id` rejects exactly the two falsy path ids, a missing one and the empty string. A valid id gives a key longer than the `SHARE#` prefix. |
| `FulfillShareRequest.InvalidIdTouchesNothing` | lambda/nodejs/src/functions/fullfillShareRequest/index.ts:13-25 | A missing or empty id gives the 400 with its JSON message, and nothing is read, uploaded or written. |
| `FulfillShareRequest.ShareKey` | lambda/nodejs/src/functions/fullfillShareRequest/index.ts:27-37 | PK and SK are equal, and each is `SHARE#` followed by exactly the id. |
| `FulfillShareRequest.ShareKeyInjective` | lambda/nodejs/src/functions/fullfillShareRequest/index.ts:27-37 | Distinct ids address distinct records. |
| `FulfillShareRequest.IsExpired` | lambda/nodejs/src/functions/fullfillShareRequest/index.ts:50-52 | Only a number `expire` can be expired, because `Number` of anything else is NaN. Its date `expire*1000` ms must also lie within ±8.64e15 ms, the range of a valid `Date`, because `isBefore` on an invalid date is false. The share is expired when that date is strictly before now. |
| `FulfillShareRequest.ExpiryMonotone` | lambda/nodejs/src/functions/fullfillShareRequest/index.ts:50-52 | A share expired at some time is expired at every later time. |
| `FulfillShareRequest.InvalidExpiryNeverExpires` | lambda/nodejs/src/functions/fullfillShareRequest/index.ts:50-52 | An `expire` that is not a number, or whose date lies outside the `Date` range, is never expired, whatever the clock says. |
| `FulfillShareRequest.FarPastExpiryIsServed` | lambda/nodejs/src/functions/fullfillShareRequest/index.ts:50-64 | A `FILE_REQUEST` whose `expire` is -10^13 seconds is an invalid date, so it is not expired, and a GET gets 200 with its title. |
| `FulfillShareRequest.Live` | lambda/nodejs/src/functions/fullfillShareRequest/index.ts:50-56 | A served share is a `FILE_REQUEST` that was never expired at any earlier time. It is live exactly when the guard lets the request through. |
| `FulfillShareRequest.CheckShare` | lambda/nodejs/src/functions/fullfillShareRequest/index.ts:44-56 | The guard on a found record faults (throws, so 500) exactly when `expire` is missing, or when the share is unexpired and `type` is missing, because `.N` or `.S` of `undefined` throws and `type` is read only after the expiry test fails. It rejects (404) exactly when the share is expired, or unexpired with a `type` other than the string `FILE_REQUEST`. |
| `FulfillShareRequest.NotFoundExactly` | lambda/nodejs/src/functions/fullfillShareRequest/index.ts:44-56 | 404 exactly when the record is absent, is expired (`IsExpired`: a valid date before now), or is unexpired with a type other than `FILE_REQUEST`. Every 404 is the same bare response: only the read happened, with no upload and no write. |
| `FulfillShareRequest.NotFoundCausesIndistinguishable` | lambda/nodejs/src/functions/fullfillShareRequest/index.ts:44-56 | An absent record, an expired record and a wrong-type record give identical outcomes, whatever the method, body and collaborators do. |
| `FulfillShareRequest.ExpiryBoundary` | lambda/nodejs/src/functions/fullfillShareRequest/index.ts:50-52 | For a clock within the `Date` range, `expire*1000 == now` is not expired yet, and one millisecond later the share is rejected. |
| `FulfillShareRequest.ServerErrorExactly` | lambda/nodejs/src/functions/fullfillShareRequest/index.ts:39-119 | 500 exactly when something throws: the read, a missing `expire`, a missing `type` on an unexpired record, a missing title on GET, or, for another method, the body validation, the upload service or the write. Every 500 has the same JSON error message. |
| `FulfillShareRequest.SuccessExactly` | lambda/nodejs/src/functions/fullfillShareRequest/index.ts:58-104 | 200 exactly when the record is a live `FILE_REQUEST` and nothing throws. Together with the 400, 404 and 500 lemmas this partitions all inputs. |
| `FulfillShareRequest.GetReturnsTitleOnly` | lambda/nodejs/src/functions/fullfillShareRequest/index.ts:58-64 | A GET on a live request returns 200 with a body of only the title, with no content-type header, and starts no upload and writes nothing. |
| `FulfillShareRequest.TitleOf` | lambda/nodejs/src/functions/fullfillShareRequest/index.ts:62 | `share.title.S` is a string exactly when the title is a string attribute, and it is then that attribute's text. Otherwise it is `undefined`, which `JSON.stringify` drops. |
| `FulfillShareRequest.PartCount` | lambda/nodejs/src/functions/fullfillShareRequest/index.ts:75 | The part count is the ceiling of size / 209,715,200: `(parts-1)*PartSize < size <= parts*PartSize`. |
| `FulfillShareRequest.PartCountExamples` | lambda/nodejs/src/functions/fullfillShareRequest/index.ts:75 | 500,000,000 bytes give 3 parts, 0 bytes give 0 parts, 1 byte gives 1 part, 200 MiB gives 1 part and 200 MiB + 1 gives 2 parts. |
| `FulfillShareRequest.PartCountOfMultiple` | lambda/nodejs/src/functions/fullfillShareRequest/index.ts:75 | k·209,715,200 bytes give exactly k parts. |
| `FulfillShareRequest.PartCountBounds` | lambda/nodejs/src/functions/fullfillShareRequest/index.ts:75 | An empty file gets 0 parts (no minimum of one). A non-empty file gets at least one part, and its last part is not empty. |
| `FulfillShareRequest.Fulfilled` | lambda/nodejs/src/functions/fullfillShareRequest/index.ts:77-91 | The written item has the read item's attributes plus `fileName`, `file` and `uploadId`. Those three are set to the DTO's file name, the upload's file id and the upload id. Every other attribute (PK, SK, type, title, expire, …) is unchanged. |
| `FulfillShareRequest.PostFulfils` | lambda/nodejs/src/functions/fullfillShareRequest/index.ts:66-103 | A submission on a live request calls the upload service once, with `PartCount(fileSize)` and the declared file type. It writes `Fulfilled(share, dto, upload)`. It answers 200 with exactly the upload's part URLs when the write succeeds, and the 500 otherwise. |
| `FulfillShareRequest.RepeatedPostOverwrites` | lambda/nodejs/src/functions/fullfillShareRequest/index.ts:77-93 | After a successful submission the record stays live. A second submission before expiry succeeds again, and its write equals fulfilling the original record with the second submission: the first one's file fields are overwritten. |
| `ParseLog.WordRun` | lambda/nodejs/src/functions/analytics/parseLog/index.ts:13 | The greedy `\w` run: a prefix of the input, made only of `[A-Za-z0-9_]`, and not followed by another word character. |
| `ParseLog.IsWordChar` | lambda/nodejs/src/functions/analytics/parseLog/index.ts:13 | `\w` without the unicode flag, `[A-Za-z0-9_]`. A word character is never `-` or `/`. |
| `ParseLog.MatchesAt` | lambda/nodejs/src/functions/analytics/parseLog/index.ts:13 | A match at position i is `/d/` inside the stem, followed by a capture group that is not empty. |
| `ParseLog.ExtractShareId` | lambda/nodejs/src/functions/analytics/parseLog/index.ts:28-29 | A share id found by the regex has at least one character, all of them word characters. |
| `ParseLog.ExtractNoneExactly` | lambda/nodejs/src/functions/analytics/parseLog/index.ts:28-29 | A stem yields no share id exactly when `/d/` followed by a word character occurs nowhere in it. |
| `ParseLog.ExtractAtFirstMatch` | lambda/nodejs/src/functions/analytics/parseLog/index.ts:28-29 | When the leftmost `/d/` followed by a word character is at position i, the share id is the maximal word run after it. |
| `ParseLog.AggregationKey` | lambda/nodejs/src/functions/analytics/parseLog/index.ts:30 | The key is the share id, then `-`, then the date, and its length is the sum of those three parts. |
| `ParseLog.KeyInjective` | lambda/nodejs/src/functions/analytics/parseLog/index.ts:30 | A share id contains no `-`, so `shareId + '-' + date` determines both the share id and the date. |
| `ParseLog.Clicks` | lambda/nodejs/src/functions/analytics/parseLog/index.ts:27-29 | The clicks of a log, one per matching line in log order. There are no more than the lines, and each share id is a non-empty word run. |
| `ParseLog.ClickOfMatchingRecord` | lambda/nodejs/src/functions/analytics/parseLog/index.ts:27-30 | Every line whose stem matches contributes its (share id, date) click. |
| `ParseLog.FirstSeen` | lambda/nodejs/src/functions/analytics/parseLog/index.ts:32-40 | Deduplication in first-seen order: the same elements as the clicks, with no repeats and no more of them. |
| `ParseLog.FirstSeenOrder` | lambda/nodejs/src/functions/analytics/parseLog/index.ts:16 | When a later row's click occurs at some position of the log, every earlier row's click occurs before that position. |
| `ParseLog.ExpectedClickData` | lambda/nodejs/src/functions/analytics/parseLog/index.ts:15-45 | The reference result: one row per distinct (share id, date) in order of first occurrence, each counting that pair's clicks. It has no more rows than log lines. Together, `RowComesFromClick` and `MatchingRecordHasRow` say that the rows are exactly the pairs of the matching lines. |
| `ParseLog.ExpectedRowsWellFormed` | lambda/nodejs/src/functions/analytics/parseLog/index.ts:36-40 | Every row's count is at least 1, and its share id is a word run. |
| `ParseLog.ExpectedAppendUnmatched` | lambda/nodejs/src/functions/analytics/parseLog/index.ts:28-29 | A line that does not match leaves the result unchanged. |
| `ParseLog.ExpectedAppendSeen` | lambda/nodejs/src/functions/analytics/parseLog/index.ts:32-34 | A click on a pair that already has a row adds exactly 1 to that row and leaves every other row, and the order, unchanged. |
| `ParseLog.ExpectedAppendNew` | lambda/nodejs/src/functions/analytics/parseLog/index.ts:36-40 | A click on a new pair appends `{shareId, date, value: 1}` and leaves the existing rows unchanged. |
| `ParseLog.ExpectedTotal` | lambda/nodejs/src/functions/analytics/parseLog/index.ts:27-42 | The counts add up to the number of matching lines. |
| `ParseLog.ExpectedKeysDistinct` | lambda/nodejs/src/functions/analytics/parseLog/index.ts:30 | No two rows have the same aggregation key. |
| `ParseLog.MatchingRecordHasRow` | lambda/nodejs/src/functions/analytics/parseLog/index.ts:27-40 | Every matching line has a row for its (share id, date). |
| `ParseLog.RowComesFromClick` | lambda/nodejs/src/functions/analytics/parseLog/index.ts:27-40 | Every row's (share id, date) is the click of some matching line, so no row is invented. |
| `ParseLog.ExpectedInFirstSeenOrder` | lambda/nodejs/src/functions/analytics/parseLog/index.ts:45 | Rows come out in the order their pairs first occur in the log. |
| `ParseLog.StepSeen` | lambda/nodejs/src/functions/analytics/parseLog/index.ts:32-34 | In the loop, bumping the entry stored under a present key keeps the map in step with the reference result. |
| `ParseLog.StepNew` | lambda/nodejs/src/functions/analytics/parseLog/index.ts:36-40 | In the loop, inserting a count of 1 under an absent key keeps the map in step with the reference result. |
| `ParseLog.ClickDataMap.constructor` | lambda/nodejs/src/functions/analytics/parseLog/index.ts:16 | A new map is empty. |
| `ParseLog.ClickDataMap.Get` | lambda/nodejs/src/functions/analytics/parseLog/index.ts:32 | `Map.get`: `undefined` exactly when the key is absent. Otherwise it is the value stored under the key. |
| `ParseLog.ClickDataMap.Set` | lambda/nodejs/src/functions/analytics/parseLog/index.ts:32-40 | `Map.set`: the entry under the key becomes the new value. A new key goes last in the order, and an existing key keeps its place. No other entry changes. |
| `ParseLog.ClickDataMap.Values` | lambda/nodejs/src/functions/analytics/parseLog/index.ts:45 | `Array.from(map.values())`: one value per key, in insertion order. |
| `ParseLog.ProcessLogs` | lambda/nodejs/src/functions/analytics/parseLog/index.ts:15-46 | The loop over the log returns exactly `ExpectedClickData(records)`. |

## Left out

- I/O is not modelled. The DynamoDB client, the upload service, the S3 fetch, gunzip, the CloudFront
  log parser, `console.error` and the process environment (`TABLE_NAME`, region) are left out. The
  read, upload and write results and the clock are inputs. The log is a sequence of
  already-parsed `(cs-uri-stem, date)` pairs.
- The upload service and the body validator (`FullfillShareRequestDto`) are not part of this model. The
  validator's verdict is an input (`Event.body` is `None` when it throws). No size or length limits
  are assumed. What the upload service does with the part count is not modelled.
- `moment` is replaced by integers: `expire` is Unix seconds and the clock is milliseconds.
  `moment.unix(e).isBefore(now)` becomes `e*1000 < now`. A date outside ±8.64e15 ms is an invalid
  `Date` and is never before now, and the model keeps that bound. The rounding of very large
  `Number(e)*1000` products in floating point is not modelled. A non-number `expire` counts as NaN, which is
  never before now.
- DynamoDB number attributes are modelled as integers. Fractional or unparseable `expire` strings are
  not modelled. Attribute kinds other than S and N are one `Other` case.
- `PartCount` uses exact integer ceiling division instead of the floating-point
  `Math.ceil(size/1024/1024/200)`. Dividing by 1024 twice is exact in binary. For an integral size
  of magnitude below 2^53, the quotient's fractional part is a multiple of 1/209,715,200, which is
  larger than half a unit in the last place, so rounding cannot cross an integer. Non-integral sizes
  are not modelled. For a size in (-200 MiB, 0), JavaScript produces `-0` where the model gives 0.
- Response headers other than `Content-Type: application/json` and the exact JSON text are left out.
  The body is one case per shape. A non-string title, which `JSON.stringify` drops, is `TitleBody(None)`.
- `clickDatum.value++` changes the stored object in place. The model replaces the entry under the
  same key with the incremented row. The object is created by the loop and is never shared, so this
  difference cannot be seen.
- The infrastructure definitions (`lib/Api.ts`), the deletion consumer they wire up (retry, bisection
  and dead-letter handling) and the browser front end are not part of this model.
