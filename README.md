# Property creation: upload to IPFS, then register on chain

This project models the core of a serverless back end that registers real-estate
properties. One HTTP handler (`handler.ts`) takes a JSON request. The request
carries a property id, an owner e-mail, optional names and a list of S3 file URLs.
The handler validates the request, then does three things in order:

1. It uploads the files through the Pinata service (`pinata.service.ts`). The
   service checks the URL list, removes duplicates and checks each file
   extension against an allow-list. It then downloads every file, pins each
   file on IPFS, and pins a JSON manifest that describes the property and its
   documents.
2. It checks, through the blockchain service (`blockchain.service.ts`), that the
   wallet holds enough ether for the gas the `registerLand` transaction will need.
3. It calls `registerLand` with the manifest CID. It reads the token id from
   the `PropertyRegistered` event, or else from `getNextTokenId() - 1`.

Two kinds of response come back. Success is HTTP 200 with the result. An error
gets a status derived from words in its message: 400, 402, 503, or else 500.

The remote services are S3 downloads, Pinata, the Ethereum provider and the
contract, and JSON parsing. They appear as *oracles*: records of functions
(`Pinata.Storage`, `Blockchain.Ledger`, `PropertyCreation.Environment`). Each
remote operation returns its outcome together with the *trace* of remote calls
it made, so properties about which calls happen, in which order and with which
arguments can be stated. A thrown value is `Outcomes.Thrown`: an `Error` with a
message, or a `NonError` for anything else. A value-or-exception is
`Outcomes.Outcome`.

Modules:

- `Text` (text.dfy): the JavaScript string operations the core relies on.
  These are `split`/`join` with a one-character separator, `includes`,
  ASCII `toLowerCase`, the `\s` class and decimal rendering. Each comes with
  the lemmas the rest of the model needs. Two position functions (the last
  and the first occurrence of a character) are reference definitions: the
  core never calls them, but they say what `split(c).pop()` and
  `split(c)[0]` yield.
- `Outcomes` (outcomes.dfy): `Option`, `Thrown`, `Outcome` and the
  `error instanceof Error ? error.message : fallback` idiom (`MessageOr`).
- `Pinata` (pinata.dfy): `uploadFile`, `uploadMetadata`, `uploadFileFromS3Url`
  and `uploadS3Files`.
- `Blockchain` (blockchain.dfy): `getWalletBalanceEth`,
  `estimateRegisterLandCost`, `ensureSufficientBalanceForRegisterLand` and
  `registerLand`.
- `PropertyCreation` (handler.dfy): request validation (including the e-mail
  regular expression), the status-code rules, the three-stage pipeline and the
  handler.

The awaited steps are mostly written as functions over the oracles.
`uploadFileFromS3Url`, `registerLand`, the post-upload stages, the status
classification and the handler are written a second time, as methods
(`FetchFile`, `RegisterLand`, `CompletePipeline`/`RunPipeline`, `ErrorStatus`,
`PropertyCreationHandler`). The methods exist only to render the source's
imperative steps (reassigned locals, early returns, an if-chain over a
mutable status). Each is proved equal to its function, and the properties are
proved as lemmas about the functions.

## Model

| member | source | states |
|---|---|---|
| Text.Split | src/shared/services/pinata.service.ts:106-107 | `split` always yields at least one part, and no part contains the separator |
| Text.Join | src/shared/services/pinata.service.ts:252 | `parts.join(sep)`: the parts with the separator between neighbours, the empty string for no parts; `Split` undoes it for separator-free parts (`SplitJoin`, `JoinSplit`) |
| Text.JoinSplit | src/shared/services/pinata.service.ts:106-107 | joining the parts of a split with the separator gives back the original string |
| Text.SplitJoin | src/shared/services/pinata.service.ts:106-107 | splitting a join of separator-free parts (at least one) gives back those parts |
| Text.SplitSingleIff | src/shared/services/pinata.service.ts:110-112 | a split has exactly one part iff the separator does not occur |
| Text.LastPartAfterLastSeparator | src/shared/services/pinata.service.ts:106-107 | the last part of a split is the suffix after the last separator (the whole string if there is none) |
| Text.FirstPartBeforeFirstSeparator | src/shared/services/pinata.service.ts:110-112 | the first part of a split is the prefix before the first separator (the whole string if there is none) |
| Text.SplitWithoutSeparator | src/shared/services/pinata.service.ts:110-112 | a string without the separator splits into itself alone |
| Text.LastIndexOf | src/shared/services/pinata.service.ts:115 | reference definition for `split(c).pop()` (the core calls no `lastIndexOf`): -1 or an index holding the character, with no occurrence after it |
| Text.IndexOrEnd | src/shared/services/pinata.service.ts:245 | reference definition for `split(c)[0]` (the core calls no `indexOf`): the index of the first occurrence, or the length when there is none; no occurrence before it |
| Text.Includes | src/functions/property-creation/handler.ts:158-168 | `includes` is true exactly when the substring occurs at some position |
| Text.IncludesInConcat | src/functions/property-creation/handler.ts:158-168 | a pattern included in either half is included in the concatenation |
| Text.AbsentCharExcludes | src/functions/property-creation/handler.ts:158-168 | a string lacking one character of the pattern does not include the pattern |
| Text.ToLower | src/shared/services/pinata.service.ts:115 | lower-casing keeps the length and maps every character through the ASCII lower-case map |
| Text.IsWhitespace | src/functions/property-creation/handler.ts:63 | the characters of the `\s` class of JavaScript regular expressions: tab, line feed, vertical tab, form feed, carriage return, space, no-break space, the Unicode space separators, the line and paragraph separators and the byte-order mark |
| Text.NatToDecimal | src/shared/services/pinata.service.ts:294 | the decimal rendering of a count is non-empty and all digits |
| Text.DecimalRoundTrip | src/shared/services/pinata.service.ts:294 | reading the decimal rendering back gives the number |
| Pinata.FileNameOf | src/shared/services/pinata.service.ts:244-245 | the batch filter's file name: the last `/`-separated part of the URL, cut at its first `?` (characterized by `FileNameOfShape`) |
| Pinata.FileNameOfShape | src/shared/services/pinata.service.ts:106-112 | the file name is the segment after the last `/`, cut at the first `?`; it contains neither character |
| Pinata.FetchedName | src/shared/services/pinata.service.ts:106-112 | the download path's name (cut at `?` only when it contains one) is the same name the batch filter computes |
| Pinata.FileNameOfPath | src/shared/services/pinata.service.ts:106-112 | for `dir/name` and `dir/name?query` with a plain name, the file name is `name` |
| Pinata.SegmentAfterLastSlash | src/shared/services/pinata.service.ts:106-112 | for `dir/segment`, the file name is the segment up to its first `?` |
| Pinata.ExtensionOf | src/shared/services/pinata.service.ts:115 | the last `.`-separated part of a file name, lower-cased (characterized by `ExtensionOfShape`) |
| Pinata.ExtensionOfShape | src/shared/services/pinata.service.ts:115 | the extension is the lower-cased text after the last dot, or the whole lower-cased name when there is no dot |
| Pinata.ExtensionOfDotted | src/shared/services/pinata.service.ts:115 | `stem.ext` has the extension `ext` lower-cased, whatever dots the stem holds |
| Pinata.AllowedByExtensionBeforeQuery | src/shared/services/pinata.service.ts:243-248 | a URL `dir/stem.ext[?query]` passes the filter iff the lower-cased `ext` is on the allow-list; the query is ignored |
| Pinata.IsAllowedUrl | src/shared/services/pinata.service.ts:243-248 | the test by which the filter keeps a URL: the extension of its file name is one of the eleven allowed extensions (the empty extension is not one) |
| Pinata.MimeTypeOf | src/shared/services/pinata.service.ts:119-145 | the MIME type of each of the thirteen mapped extensions, and none for any other string |
| Pinata.AllowedWithoutDot | src/shared/services/pinata.service.ts:243-248 | a name without a dot is judged by the whole lower-cased name |
| Pinata.Dedup | src/shared/services/pinata.service.ts:223 | `[...new Set(urls)]` has no duplicates, the same elements as its input and is no longer |
| Pinata.DedupKeepsFirstOccurrenceOrder | src/shared/services/pinata.service.ts:223 | the kept URLs are in the order of their first occurrence |
| Pinata.DedupIdentityIffNoDuplicates | src/shared/services/pinata.service.ts:223-227 | removing duplicates changes nothing iff there were none |
| Pinata.DedupIdempotent | src/shared/services/pinata.service.ts:223 | removing duplicates twice equals removing them once |
| Pinata.DedupRepeatThenOther | src/shared/services/pinata.service.ts:223 | `[a, a, b]` with `a != b` becomes `[a, b]` |
| Pinata.DedupScenario | src/shared/services/pinata.service.ts:223 | a repeated document collapses to one entry, ahead of the next distinct URL |
| Pinata.InvalidFiles | src/shared/services/pinata.service.ts:243-248 | the invalid list holds exactly the URLs whose extension is missing or not on the allow-list |
| Pinata.InvalidFilesKeepOrder | src/shared/services/pinata.service.ts:243-248 | the filter keeps the order of a list without repetitions: earlier invalid entries come earlier in the input |
| Pinata.InvalidUrlsInRequestOrder | src/shared/services/pinata.service.ts:223-254 | the URLs named by the invalid-types message are in the order of their first occurrence in the request |
| Pinata.InvalidUrlsListed | src/shared/services/pinata.service.ts:243-254 | with any disallowed URL, the invalid list is non-empty and holds each URL once |
| Pinata.ValidateUrls | src/shared/services/pinata.service.ts:210-254 | validation passes iff the list is present, holds 1..20 URLs and all are allowed; then it yields the de-duplicated list. Each rejection has its exact message, in the source's order |
| Pinata.ValidationIgnoresDuplicates | src/shared/services/pinata.service.ts:215-254 | within the count limit, validating a list equals validating its de-duplicated form |
| Pinata.ValidationByDistinctUrls | src/shared/services/pinata.service.ts:243-254 | within the count limit, validation depends only on the distinct URLs: it accepts them de-duplicated when the filter rejects none, and otherwise fails with the message listing the rejected ones |
| Pinata.UploadFile | src/shared/services/pinata.service.ts:54-75 | pinning a file makes one `pinFileToIPFS` call with the name and content; it succeeds iff that call does and then returns its `IpfsHash`; a failure carries the IPFS-upload prefix |
| Pinata.UploadMetadata | src/shared/services/pinata.service.ts:77-93 | pinning the manifest makes one `pinJSONToIPFS` call with it; it succeeds iff that call does and then returns its `IpfsHash`; a failure carries the metadata prefix |
| Pinata.FetchAndPin | src/shared/services/pinata.service.ts:96-184 | the `try` block of the single-file upload: download, name the file, fail on an unmapped extension, then on more than 10 MiB, else pin and return name, MIME type and CID; `UploadFileFromS3Url` rethrows its failures under the S3 prefix |
| Pinata.UploadFileFromS3Url | src/shared/services/pinata.service.ts:95-191 | the first call downloads the URL. The upload succeeds iff the download succeeds, the extension has a MIME type, the file is at most 10 MiB and the pin succeeds. Then it yields name, MIME type and CID. A failure carries the S3 prefix, and a manifest is never pinned |
| Pinata.FetchFile | src/shared/services/pinata.service.ts:95-191 | the step-by-step upload equals the functional one, outcome and calls |
| Pinata.PinnedFileIsAccepted | src/shared/services/pinata.service.ts:144-178 | a file is pinned only with the downloaded content and the derived name, and only when it is at most 10 MiB and has a MIME type |
| Pinata.UnsupportedTypeRefused | src/shared/services/pinata.service.ts:144-150 | a downloaded file with no MIME type fails with the unsupported-type message, after the download alone |
| Pinata.OversizedFileRefused | src/shared/services/pinata.service.ts:155-161 | a downloaded file over 10485760 bytes fails with the size message, after the download alone |
| Pinata.UploadEach | src/shared/services/pinata.service.ts:257-274 | one outcome per unique URL, each the single-file upload of that URL |
| Pinata.DownloadsOfEach | src/shared/services/pinata.service.ts:257-278 | the batch downloads each of its URLs once, in order |
| Pinata.CallsOfEach | src/shared/services/pinata.service.ts:257-278 | every call of the batch belongs to the upload of one of its URLs |
| Pinata.FirstFailure | src/shared/services/pinata.service.ts:277-278 | the reported failure is the first failing upload, and all before it succeeded; none means all succeeded |
| Pinata.Values | src/shared/services/pinata.service.ts:277-278 | when all uploads succeed, their values in URL order |
| Pinata.Summaries | src/shared/services/pinata.service.ts:296-300 | one summary per document, with its name, its CID and size 0 |
| Pinata.UploadS3Files | src/shared/services/pinata.service.ts:196-308 | a failure carries the batch prefix; a rejected list makes no remote call; success implies a valid list |
| Pinata.EmptyBatchRejected | src/shared/services/pinata.service.ts:210-212 | a missing or empty list fails with the no-URLs message and no call |
| Pinata.CountCheckedBeforeDedup | src/shared/services/pinata.service.ts:215-220 | more than 20 URLs fail with the count message, counting duplicates, before any call |
| Pinata.RepeatedUrlStillCounted | src/shared/services/pinata.service.ts:215-223 | 21 copies of one URL are rejected, though they de-duplicate to one |
| Pinata.InvalidTypesRejectedBeforeDownload | src/shared/services/pinata.service.ts:243-254 | a disallowed URL makes the batch fail with the list of distinct invalid URLs before any download |
| Pinata.DownloadsAreTheDistinctUrls | src/shared/services/pinata.service.ts:223-278 | a valid batch downloads exactly the de-duplicated URLs, in order of first occurrence |
| Pinata.PinnedFilesAreAllowed | src/shared/services/pinata.service.ts:230-278 | every pinned file has an allowed extension (never ppt or pptx) and is at most 10 MiB |
| Pinata.PresentationsNotAllowed | src/shared/services/pinata.service.ts:119-242 | ppt and pptx have MIME types but are not on the batch allow-list |
| Pinata.AllowedExtensionsHaveMimeTypes | src/shared/services/pinata.service.ts:119-242 | every allowed extension has a MIME type |
| Pinata.FailedFileReportedByUrl | src/shared/services/pinata.service.ts:265-278 | when upload k is the first to fail, the batch fails naming that URL, and no manifest is pinned |
| Pinata.OrDefault | src/shared/services/pinata.service.ts:283-285 | `value || fallback` on a string field: the fallback when the value is absent or empty, the value otherwise |
| Pinata.BuildManifest | src/shared/services/pinata.service.ts:281-288 | the manifest: the property id, the owner name defaulting to `Unknown Owner`, type and name defaulting to the empty string, the uploaded documents and the timestamp |
| Pinata.ManifestCallsCarryRequest | src/shared/services/pinata.service.ts:281-290 | a pinned manifest carries the property id and the owner, type and name with their defaults |
| Pinata.SuccessfulBatch | src/shared/services/pinata.service.ts:277-301 | on success the last call pins the manifest, with one document per unique URL in order; the result carries the manifest CID, the count message and size-0 summaries |
| Pinata.BatchSuccessCondition | src/shared/services/pinata.service.ts:208-301 | the batch succeeds iff its list validates, every distinct URL uploads, and the manifest of the uploaded documents pins |
| Pinata.DuplicatesAreIrrelevant | src/shared/services/pinata.service.ts:215-308 | within the count limit, a batch behaves as the same batch with duplicates removed, in outcome and calls |
| Blockchain.WalletBalanceEth | src/shared/services/blockchain.service.ts:144-152 | one balance read; it succeeds iff the read does, with the formatted balance; otherwise it gives the fixed balance message |
| Blockchain.GasPriceOf | src/shared/services/blockchain.service.ts:163 | `gasPrice ?? maxFeePerGas ?? 0n`: the gas price, else the fee cap, else 0 |
| Blockchain.GasPriceFallsBackOnlyWhenAbsent | src/shared/services/blockchain.service.ts:163 | a present gas price of 0 is kept (`??`, not `||`); the fee cap is not consulted once a gas price is present; the price is 0 only when the deciding field is 0 or both are absent |
| Blockchain.IsRevert | src/shared/services/blockchain.service.ts:176-180 | an estimate error is a revert when its code is `CALL_EXCEPTION` and its short message or its message includes "execution reverted" |
| Blockchain.ClassifyEstimateFailure | src/shared/services/blockchain.service.ts:176-188 | a revert reads the balance and becomes the shortfall message (or the balance failure); anything else is the fixed estimate message, with no call |
| Blockchain.EstimateRegisterLandCost | src/shared/services/blockchain.service.ts:154-190 | the estimate succeeds iff the gas estimate and the fee data do; the total is the gas limit times the gas price; each failure is classified as the source does |
| Blockchain.EnsureSufficientBalance | src/shared/services/blockchain.service.ts:192-205 | the gate passes iff the balance and the estimate are available and the balance covers the total cost; both reads are always made |
| Blockchain.GateOnlyReads | src/shared/services/blockchain.service.ts:192-205 | the gate only reads: balance, gas estimate and fee data |
| Blockchain.ShortfallMessage | src/shared/services/blockchain.service.ts:176-204 | a short balance, or a reverting estimate, fails with the insufficient-balance message naming the address and balance |
| Blockchain.ExactFundsSuffice | src/shared/services/blockchain.service.ts:198-199 | a balance equal to the cost passes (the comparison is strict) |
| Blockchain.MoreFundsStillSuffice | src/shared/services/blockchain.service.ts:198-199 | a gate that passes still passes with a larger balance |
| Blockchain.FreeGasAlwaysPasses | src/shared/services/blockchain.service.ts:163-199 | with a zero gas price, any readable balance passes |
| Blockchain.FindRegisteredEvent | src/shared/services/blockchain.service.ts:110-117 | the event found is the first log that parses as `PropertyRegistered`; none means no log does |
| Blockchain.ThrowingLogIsSkipped | src/shared/services/blockchain.service.ts:111-116 | a log whose parsing throws is skipped |
| Blockchain.FirstEventDecides | src/shared/services/blockchain.service.ts:110-127 | a first event without a tokenId forces the fallback even when a later log carries one |
| Blockchain.FirstEventAt | src/shared/services/blockchain.service.ts:110-117 | a registered event with none before it is the event found |
| Blockchain.EventTokenId | src/shared/services/blockchain.service.ts:110-123 | the token id carried by the first log that parses as the registration event; none when no log does or that event has no token id, which calls for the counter |
| Blockchain.RegistrationOf | src/shared/services/blockchain.service.ts:92-135 | reference definition of a granted registration: the CID is unused, the transaction is sent and mined with status 1, and the token id is the first event's or, without one, the counter minus one |
| Blockchain.EventTokenIdWins | src/shared/services/blockchain.service.ts:119-122 | a tokenId from the event is used, and `getNextTokenId` is not consulted |
| Blockchain.CounterFallback | src/shared/services/blockchain.service.ts:124-132 | without a token id from the event, the counter is read as the last call; the token id is the counter minus one, and an unreadable counter fails under the register prefix |
| Blockchain.UsedCidNeverRegistered | src/shared/services/blockchain.service.ts:92-95 | a used CID is never registered |
| Blockchain.RegisterLandRun | src/shared/services/blockchain.service.ts:87-142 | `registerLand` as a value: the outcome and the calls made in order, every failure rethrown under the register prefix (its properties are `RegisterLandCalls`, `RegisterLandOutcome` and `CounterFallback`) |
| Blockchain.RegisterLandCalls | src/shared/services/blockchain.service.ts:87-142 | the CID is checked first; a transaction is sent iff the CID is unused; `getNextTokenId` is called only after a confirmed receipt without a tokenId event |
| Blockchain.RegisterLandOutcome | src/shared/services/blockchain.service.ts:87-142 | a used CID fails with its message after one call. Every failure carries the register prefix; a status other than 1 fails as a failed transaction. Success iff the reference registration exists, with its value |
| Blockchain.RegisterLand | src/shared/services/blockchain.service.ts:87-142 | the step-by-step registration equals the functional one, outcome and calls |
| PropertyCreation.IsEmail | src/functions/property-creation/handler.ts:63-64 | the e-mail test decided directly: a non-empty local part before the first `@`, then a domain of at least three characters with a `.` that is neither its first nor its last, both free of whitespace and `@` (equal to the pattern by `EmailMatchesPattern`) |
| PropertyCreation.EmailMatchesPattern | src/functions/property-creation/handler.ts:63-64 | the e-mail test accepts exactly `local@domain.tld`, each part non-empty and free of whitespace and `@` |
| PropertyCreation.EmailSound | src/functions/property-creation/handler.ts:63-64 | every accepted address has that shape |
| PropertyCreation.EmailComplete | src/functions/property-creation/handler.ts:63-64 | every address of that shape, split at a chosen `@` and dot, is accepted |
| PropertyCreation.PlainAddressAccepted | src/functions/property-creation/handler.ts:63-64 | `a@b.co` is accepted |
| PropertyCreation.BareDomainRejected | src/functions/property-creation/handler.ts:63-64 | `a@b` is rejected |
| PropertyCreation.SecondAtRejected | src/functions/property-creation/handler.ts:63-64 | `a@b@c.d` is rejected |
| PropertyCreation.SpaceRejected | src/functions/property-creation/handler.ts:63-64 | `a b@c.d` is rejected |
| PropertyCreation.ValidateRequest | src/functions/property-creation/handler.ts:32-66 | validation passes iff the body is acceptable, and then yields the parsed fields; every rejection is an `Error` |
| PropertyCreation.ValidationOrder | src/functions/property-creation/handler.ts:32-66 | the checks run in the source's order (body, JSON, required fields, an array that is non-empty, e-mail), each with its message; a non-array `fileUrls` and an empty array get the same message |
| PropertyCreation.StatusByRules | src/functions/property-creation/handler.ts:158-171 | the status of the first rule one of whose markers the message includes; 500 when none does |
| PropertyCreation.StatusOf | src/functions/property-creation/handler.ts:151-171 | the status of a thrown value: 500 for a non-`Error`, else the rule table (400, 402, 503 in that order) applied to its message |
| PropertyCreation.StatusChain | src/functions/property-creation/handler.ts:151-171 | the rule table gives the status of the source's if-chain |
| PropertyCreation.StatusPrecedence | src/functions/property-creation/handler.ts:158-170 | 400, 402, 503 and 500 each hold exactly when their markers are present and no earlier rule's are |
| PropertyCreation.ErrorStatus | src/functions/property-creation/handler.ts:151-171 | the step-by-step classification returns the rule-table status and the message, or the internal-server-error text for a non-Error |
| PropertyCreation.NoMarkers | src/functions/property-creation/handler.ts:151-171 | a message missing one character of each marker gets 500 |
| PropertyCreation.ClientErrorMarker | src/functions/property-creation/handler.ts:158-162 | a message starting with `Missing required` or `Invalid` gets 400 |
| PropertyCreation.MissingBodyStatus | src/functions/property-creation/handler.ts:32-34 | a missing body is answered with 500: its message has no marker |
| PropertyCreation.InvalidJsonStatus | src/functions/property-creation/handler.ts:36-41 | invalid JSON is answered with 400 |
| PropertyCreation.MissingFieldsStatus | src/functions/property-creation/handler.ts:44-52 | missing fields are answered with 400 |
| PropertyCreation.EmptyUrlsStatus | src/functions/property-creation/handler.ts:55-60 | an empty or non-array URL list is answered with 500: its message has no marker |
| PropertyCreation.InvalidEmailStatus | src/functions/property-creation/handler.ts:63-66 | an invalid e-mail is answered with 400 |
| PropertyCreation.InvalidTypesStatus | src/shared/services/pinata.service.ts:250-254 | a batch with invalid file types is answered with 400, whatever the URLs |
| PropertyCreation.StorageCallsHold | src/functions/property-creation/handler.ts:85-90 | lifting storage calls into the combined trace keeps exactly those calls and adds no ledger call |
| PropertyCreation.LedgerCallsHold | src/functions/property-creation/handler.ts:102-115 | lifting ledger calls into the combined trace keeps exactly those calls and adds no storage call |
| PropertyCreation.UploadRequestOf | src/functions/property-creation/handler.ts:85-90 | the argument of the batch upload: the property id, the URLs, the full name as owner name and the property name, with no property type |
| PropertyCreation.Settle | src/functions/property-creation/handler.ts:102-128 | the funds gate on the manifest CID and, when it passes, the registration of that CID, giving the result with its token id, hash, CID and fixed message; the ledger calls of both in order |
| PropertyCreation.AfterUpload | src/functions/property-creation/handler.ts:92-128 | after the upload: its failure, the missing-CID error for an empty CID, or the outcome of `Settle`; the storage calls, then the ledger calls |
| PropertyCreation.Pipeline | src/functions/property-creation/handler.ts:85-128 | the batch upload of the request followed by `AfterUpload` |
| PropertyCreation.PipelineStages | src/functions/property-creation/handler.ts:85-115 | the upload's calls come first. An upload failure, a missing CID and a failed funds gate each end the pipeline with that error and only the calls made so far |
| PropertyCreation.PipelineOutcome | src/functions/property-creation/handler.ts:85-128 | the pipeline succeeds iff the funds are confirmed and the CID is registered, yielding that token id, hash and CID; every failure is an `Error` |
| PropertyCreation.PipelineCalls | src/functions/property-creation/handler.ts:85-115 | the storage calls are exactly the upload's. No ledger call happens without a CID. The CID check is made only after the funds are confirmed, and `registerLand` is sent only for an unused CID, both with the manifest CID |
| PropertyCreation.PipelineManifest | src/functions/property-creation/handler.ts:85-90 | the manifest carries the property id, the owner name or `Unknown Owner`, and an empty property type (never passed) |
| PropertyCreation.CompletePipeline | src/functions/property-creation/handler.ts:92-115 | the step-by-step post-upload stages equal the functional ones, outcome and calls |
| PropertyCreation.RunPipeline | src/functions/property-creation/handler.ts:85-115 | the step-by-step pipeline equals the functional one, outcome and calls |
| PropertyCreation.Respond | src/functions/property-creation/handler.ts:122-185 | a result gives status 200 with the result and its message; a thrown value gives the status `StatusOf` selects and its message, or `Internal server error` for a non-`Error` |
| PropertyCreation.RespondStatus | src/functions/property-creation/handler.ts:122-185 | 200 iff the pipeline succeeded, with the result and its message; otherwise a failure body whose status is derived from its message, one of 400, 402, 500, 503 |
| PropertyCreation.Handle | src/functions/property-creation/handler.ts:28-187 | validation first, with no remote call when it fails; otherwise the pipeline; either way the response `Respond` selects |
| PropertyCreation.HandlerSuccess | src/functions/property-creation/handler.ts:122-146 | the handler answers 200 iff the request is valid and the property is registered, with the registration's token id, hash and the manifest CID |
| PropertyCreation.HandlerFailure | src/functions/property-creation/handler.ts:147-185 | any other answer is a failure body with the message-derived status, one of 400, 402, 500, 503 |
| PropertyCreation.HandlerCalls | src/functions/property-creation/handler.ts:28-115 | an invalid request makes no remote call. `registerLand` is sent only for a valid request and the confirmed, unused manifest CID. The manifest's type is always empty |
| PropertyCreation.PropertyCreationHandler | src/functions/property-creation/handler.ts:28-187 | the step-by-step handler equals the functional one, response and calls |

## Left out

- Network and SDK calls are oracles. The S3 download (axios, 30 s timeout), Pinata's pin calls, the provider's balance, gas and fee reads and the contract's calls are functions of their arguments. Time-outs, retries and transport details are not modelled.
- JSON parsing is an oracle (`Environment.parseJson`) that yields not-JSON, `null` or an object of string fields. Non-string field values (numbers, nested objects, a non-string in `fileUrls`) are not modelled.
- A `null` body parses to `null`, and reading `propertyId` of it throws a `TypeError`. The model uses that TypeError message, which carries no status marker and gets 500.
- The timestamp of the manifest (`new Date().toISOString()`) is a parameter. The `Date.now()` suffix of the manifest's pin name is not modelled, because the pin name is not part of the traced call.
- `ethers.formatEther` is an oracle field of the ledger, and the balance is compared in wei. The model assumes `parseEther(formatEther(b)) == b`.
- `Number()` conversion of the token id: the model keeps the exact integer. Loss of precision above 2^53 is not modelled.
- `Promise.all` in the batch and in the funds gate is sequential here. All uploads are attempted, and the failure reported is the first in URL order, not the first in time. In the gate the balance is read first; if both reads fail, the balance failure is reported.
- `tx.wait()` resolving to `null` (which makes reading `status` throw) is not modelled: a receipt is always present when the wait succeeds.
- The balance is read twice when an estimate reverts. Both reads are taken to return the same value.
- `mimeTypeMap[ext]` in JavaScript also finds inherited keys such as `constructor`. The model looks up only the 13 listed extensions. From the batch this makes no difference, because the allow-list filter rejects such names first.
- `toLowerCase` is ASCII-only here. No non-ASCII character lower-cases into an allow-listed ASCII extension, so accept and reject agree.
- Estimate errors whose thrown value is `null` or not an object are not modelled: an `EthersError` record always has the three optional fields.
- Service construction, environment variables, ABI loading and the handler's service construction (handler.ts:76-77) are not modelled: they configure clients and do not decide outcomes.
- Logging, the CORS headers of the responses and the request duration are not modelled.
- Status codes are proved for six individual messages (see the table). For the remaining messages (a used CID, a failed transaction, a missing manifest CID, a shortfall) `PropertyCreation.StatusChain` gives the status, but no specific lemma states it.
- `scripts/bundle-lambda.ts` and `src/shared/types/lambda.types.ts` are not part of this model.
