/** `propertyCreationHandler`: the request is validated, its documents are
    uploaded and pinned, the wallet is checked for funds, the manifest is
    registered on the ledger, and any failure is answered with a status code
    chosen from its message.

    The JSON parser, the storage services and the ledger are given in an
    `Environment`; the handler returns, with its response, every remote call
    it issued, in order. */
module PropertyCreation {
  import opened Text
  import opened Outcomes
  import Pinata
  import Blockchain

  // ---------------------------------------------------------------------------
  // The request

  /** The `fileUrls` field as the checks see it: falsy or absent, an array
      of URLs, or some other truthy value. */
  datatype FileUrlsField = UrlsMissing | UrlsArray(urls: seq<string>) | UrlsNotArray

  /** The fields of the parsed body; a `None` field is one left undefined. */
  datatype Payload = Payload(
    propertyId: Option<string>,
    propertyName: Option<string>,
    fileUrls: FileUrlsField,
    userEmail: Option<string>,
    userFullName: Option<string>)

  /** What `JSON.parse` makes of the body: it throws, yields `null`, or
      yields a value whose fields are read (a primitive or an array reads as
      an object whose fields are all undefined). */
  datatype ParsedBody = NotJson | JsonNull | JsonObject(payload: Payload)

  /** A request that passed validation. */
  datatype ValidRequest = ValidRequest(
    propertyId: string,
    propertyName: Option<string>,
    fileUrls: seq<string>,
    userEmail: string,
    userFullName: Option<string>)

  const BodyRequiredMessage := "Request body is required"
  const InvalidJsonMessage := "Invalid JSON in request body"
  const NullBodyMessage := "Cannot read properties of null (reading 'propertyId')"
  const MissingFieldsMessage := "Missing required fields: " + "propertyId, userEmail, and fileUrls"
  const EmptyUrlsMessage := "fileUrls must be a non-empty array"
  const InvalidEmailMessage := "Invalid email format"
  const NoMetadataCidMessage := "Pinata upload did not return a metadata CID"
  const SuccessMessage := "Property created and registered on blockchain successfully"
  const InternalServerError := "Internal server error"

  /** A string field that is present and not empty: JavaScript truthiness. */
  predicate Truthy(field: Option<string>)
  {
    field.Some? && field.value != ""
  }

  // ---------------------------------------------------------------------------
  // The e-mail pattern `^[^\s@]+@[^\s@]+\.[^\s@]+$`

  /** A run of the class `[^\s@]`. */
  predicate Plain(t: string)
  {
    forall i :: 0 <= i < |t| ==> !IsWhitespace(t[i]) && t[i] != '@'
  }

  /** The language of the pattern: a non-empty run, `@`, a non-empty run,
      `.`, a non-empty run, where the runs hold neither whitespace nor `@`. */
  ghost predicate EmailShape(s: string)
  {
    exists i, j :: 0 < i && i + 1 < j && j + 1 < |s| && s[i] == '@' && s[j] == '.'
      && Plain(s[..i]) && Plain(s[i + 1..j]) && Plain(s[j + 1..])
  }

  /** `emailRegex.test(email)`, decided directly: one `@` after a non-empty
      local part, no whitespace, and a domain with a `.` that is neither its
      first nor its last character. */
  function IsEmail(s: string): bool
  {
    var at := IndexOrEnd(s, '@');
    if at == 0 || at == |s| then false
    else
      var domain := s[at + 1..];
      Plain(s[..at]) && Plain(domain) && |domain| >= 3 && '.' in domain[1..|domain| - 1]
  }

  lemma PlainSlice(t: string, a: nat, b: nat)
    requires Plain(t) && a <= b <= |t|
    ensures Plain(t[a..b])
  {
    assert forall k :: 0 <= k < b - a ==> t[a..b][k] == t[a + k];
  }

  lemma PlainConcat(a: string, b: string)
    requires Plain(a) && Plain(b)
    ensures Plain(a + b)
  {
    assert forall k :: |a| <= k < |a + b| ==> (a + b)[k] == b[k - |a|];
  }

  /** What the direct decision accepts, the pattern matches. */
  lemma EmailSound(s: string)
    requires IsEmail(s)
    ensures EmailShape(s)
  {
    var at := IndexOrEnd(s, '@');
    var domain := s[at + 1..];
    var middle := domain[1..|domain| - 1];
    var p :| 0 <= p < |middle| && middle[p] == '.';
    var j := at + 2 + p;
    assert s[j] == '.';
    assert s[at + 1..j] == domain[..p + 1];
    assert s[j + 1..] == domain[p + 2..];
    PlainSlice(domain, 0, p + 1);
    PlainSlice(domain, p + 2, |domain|);
    assert domain[p + 2..] == domain[p + 2..|domain|];
  }

  /** What the pattern matches, the direct decision accepts. */
  lemma EmailComplete(s: string, i: nat, j: nat)
    requires 0 < i && i + 1 < j && j + 1 < |s| && s[i] == '@' && s[j] == '.'
    requires Plain(s[..i]) && Plain(s[i + 1..j]) && Plain(s[j + 1..])
    ensures IsEmail(s)
  {
    assert forall k :: 0 <= k < i ==> s[..i][k] == s[k];
    assert IndexOrEnd(s, '@') == i;
    var domain := s[i + 1..];
    assert domain == s[i + 1..j] + [s[j]] + s[j + 1..];
    PlainConcat(s[i + 1..j], [s[j]]);
    PlainConcat(s[i + 1..j] + [s[j]], s[j + 1..]);
    assert domain[1..|domain| - 1][j - i - 2] == '.';
  }

  /** The direct decision agrees with the pattern on every string. */
  lemma EmailMatchesPattern(s: string)
    ensures IsEmail(s) <==> EmailShape(s)
  {
    if IsEmail(s) {
      EmailSound(s);
    }
    if EmailShape(s) {
      var i, j :| 0 < i && i + 1 < j && j + 1 < |s| && s[i] == '@' && s[j] == '.'
        && Plain(s[..i]) && Plain(s[i + 1..j]) && Plain(s[j + 1..]);
      EmailComplete(s, i, j);
    }
  }

  /** How a few addresses fare. */
  lemma PlainAddressAccepted()
    ensures IsEmail("a@b.co")
  {
    assert "a@b.co"[2..][1..3][0] == '.';
  }

  lemma BareDomainRejected()
    ensures !IsEmail("a@b")
  {
  }

  lemma SecondAtRejected()
    ensures !IsEmail("a@b@c.d")
  {
    assert "a@b@c.d"[2..][1] == '@';
  }

  lemma SpaceRejected()
    ensures !IsEmail("a b@c.d")
  {
    assert "a b@c.d"[..3][1] == ' ';
  }

  // ---------------------------------------------------------------------------
  // Validation

  /** The requests the handler accepts, stated with the pattern itself. */
  ghost predicate Acceptable(body: Option<string>, parseJson: string -> ParsedBody)
  {
    && Truthy(body)
    && parseJson(body.value).JsonObject?
    && var p := parseJson(body.value).payload;
    && Truthy(p.propertyId) && Truthy(p.userEmail)
    && p.fileUrls.UrlsArray? && |p.fileUrls.urls| > 0
    && EmailShape(p.userEmail.value)
  }

  /** The validation at the head of the handler, in its order: the body,
      its syntax, the three required fields, the shape of `fileUrls`, and
      the e-mail address. */
  function ValidateRequest(body: Option<string>, parseJson: string -> ParsedBody): (r: Outcome<ValidRequest>)
    ensures r.Ok? <==> Acceptable(body, parseJson)
    ensures r.Ok? ==>
      && Truthy(body) && parseJson(body.value).JsonObject?
      && var p := parseJson(body.value).payload;
      && r.value == ValidRequest(p.propertyId.value, p.propertyName, p.fileUrls.urls, p.userEmail.value, p.userFullName)
    ensures r.Fail? ==> r.error.Error?
  {
    if !Truthy(body) then Fail(Error(BodyRequiredMessage))
    else match parseJson(body.value)
      case NotJson => Fail(Error(InvalidJsonMessage))
      case JsonNull => Fail(Error(NullBodyMessage))
      case JsonObject(p) =>
        if !Truthy(p.propertyId) || !Truthy(p.userEmail) || p.fileUrls.UrlsMissing? then
          Fail(Error(MissingFieldsMessage))
        else if p.fileUrls.UrlsNotArray? || |p.fileUrls.urls| == 0 then
          Fail(Error(EmptyUrlsMessage))
        else
          EmailMatchesPattern(p.userEmail.value);
          if !IsEmail(p.userEmail.value) then Fail(Error(InvalidEmailMessage))
          else Ok(ValidRequest(p.propertyId.value, p.propertyName, p.fileUrls.urls, p.userEmail.value, p.userFullName))
  }

  /** Each check reports only when the earlier ones pass: a missing field is
      reported whatever the list and the address, an empty list whatever
      the address. */
  lemma ValidationOrder(body: Option<string>, parseJson: string -> ParsedBody)
    ensures !Truthy(body) ==> ValidateRequest(body, parseJson) == Fail(Error(BodyRequiredMessage))
    ensures Truthy(body) && parseJson(body.value).NotJson? ==>
      ValidateRequest(body, parseJson) == Fail(Error(InvalidJsonMessage))
    ensures Truthy(body) && parseJson(body.value).JsonNull? ==>
      ValidateRequest(body, parseJson) == Fail(Error(NullBodyMessage))
    ensures Truthy(body) && parseJson(body.value).JsonObject? ==>
      var p := parseJson(body.value).payload;
      && (!Truthy(p.propertyId) || !Truthy(p.userEmail) || p.fileUrls.UrlsMissing? ==>
            ValidateRequest(body, parseJson) == Fail(Error(MissingFieldsMessage)))
      && (Truthy(p.propertyId) && Truthy(p.userEmail) && (p.fileUrls.UrlsNotArray? || p.fileUrls == UrlsArray([])) ==>
            ValidateRequest(body, parseJson) == Fail(Error(EmptyUrlsMessage)))
      && (Truthy(p.propertyId) && Truthy(p.userEmail) && p.fileUrls.UrlsArray? && |p.fileUrls.urls| > 0
          && !EmailShape(p.userEmail.value) ==>
            ValidateRequest(body, parseJson) == Fail(Error(InvalidEmailMessage)))
  {
    if Truthy(body) && parseJson(body.value).JsonObject? && Truthy(parseJson(body.value).payload.userEmail) {
      EmailMatchesPattern(parseJson(body.value).payload.userEmail.value);
    }
  }

  // ---------------------------------------------------------------------------
  // Status codes

  /** One line of the classification: any of the markers gives the status. */
  datatype StatusRule = StatusRule(markers: seq<string>, status: int)

  /** The classification in its order; a message matching none is a 500. */
  const StatusRules: seq<StatusRule> := [
    StatusRule(["Missing required", "Invalid"], 400),
    StatusRule(["Insufficient balance"], 402),
    StatusRule(["Service", "AWS"], 503)]

  predicate MentionsAny(message: string, markers: seq<string>)
  {
    |markers| > 0 && (Includes(message, markers[0]) || MentionsAny(message, markers[1..]))
  }

  /** The status of the first rule one of whose markers the message holds. */
  function StatusByRules(message: string, rules: seq<StatusRule>): int
  {
    if |rules| == 0 then 500
    else if MentionsAny(message, rules[0].markers) then rules[0].status
    else StatusByRules(message, rules[1..])
  }

  /** The status code of a thrown value: a non-`Error` is a 500. */
  function StatusOf(t: Thrown): int
  {
    match t
    case NonError => 500
    case Error(message) => StatusByRules(message, StatusRules)
  }

  lemma MentionsEither(message: string, a: string, b: string)
    ensures MentionsAny(message, [a, b]) <==> Includes(message, a) || Includes(message, b)
  {
    assert [a, b][1..] == [b];
    MentionsOne(message, b);
  }

  lemma MentionsOne(message: string, a: string)
    ensures MentionsAny(message, [a]) <==> Includes(message, a)
  {
    assert [a][1..] == [];
    assert !MentionsAny(message, []);
  }

  /** The rule table read as the chain of tests it encodes. */
  lemma StatusChain(message: string)
    ensures StatusOf(Error(message)) ==
      if Includes(message, "Missing required") || Includes(message, "Invalid") then 400
      else if Includes(message, "Insufficient balance") then 402
      else if Includes(message, "Service") || Includes(message, "AWS") then 503
      else 500
  {
    var last := [StatusRule(["Service", "AWS"], 503)];
    var middle := [StatusRule(["Insufficient balance"], 402)] + last;
    assert StatusRules == [StatusRule(["Missing required", "Invalid"], 400)] + middle;
    assert StatusRules[1..] == middle && middle[1..] == last && last[1..] == [];
    MentionsEither(message, "Service", "AWS");
    assert StatusByRules(message, last)
        == if Includes(message, "Service") || Includes(message, "AWS") then 503 else 500;
    MentionsOne(message, "Insufficient balance");
    assert StatusByRules(message, middle)
        == if Includes(message, "Insufficient balance") then 402 else StatusByRules(message, last);
    MentionsEither(message, "Missing required", "Invalid");
  }

  /** The `catch` block: the status starts at 500 and the message at the
      generic one; an `Error` replaces the message and may raise the status
      through the ordered tests. */
  method ErrorStatus(error: Thrown) returns (statusCode: int, errorMessage: string)
    ensures statusCode == StatusOf(error)
    ensures errorMessage == MessageOr(error, InternalServerError)
  {
    statusCode := 500;
    errorMessage := InternalServerError;
    if error.Error? {
      errorMessage := error.message;
      StatusChain(errorMessage);
      if Includes(errorMessage, "Missing required") || Includes(errorMessage, "Invalid") {
        statusCode := 400;
      } else if Includes(errorMessage, "Insufficient balance") {
        statusCode := 402;
      } else if Includes(errorMessage, "Service") || Includes(errorMessage, "AWS") {
        statusCode := 503;
      }
    }
  }

  /** The classification is total over four codes, and each code is chosen
      exactly when its markers are present and no earlier line's are. */
  lemma StatusPrecedence(message: string)
    ensures var status := StatusOf(Error(message));
      var clientError := Includes(message, "Missing required") || Includes(message, "Invalid");
      var shortfall := Includes(message, "Insufficient balance");
      var unavailable := Includes(message, "Service") || Includes(message, "AWS");
      && (status == 400 <==> clientError)
      && (status == 402 <==> !clientError && shortfall)
      && (status == 503 <==> !clientError && !shortfall && unavailable)
      && (status == 500 <==> !clientError && !shortfall && !unavailable)
  {
    StatusChain(message);
  }

  /** A message that starts with a marker holds it. */
  lemma StartsWith(message: string, marker: string)
    requires marker <= message
    ensures Includes(message, marker)
  {
    assert OccursAt(message, marker, 0);
  }

  /** No character of `s` is one of `chars`. */
  predicate Avoids(s: string, chars: string)
  {
    forall i :: 0 <= i < |s| ==> s[i] !in chars
  }

  /** A message avoiding a character of each marker is a 500; `chars`
      holds one character of "Missing required", "Invalid", "Insufficient
      balance", "Service" and "AWS", in that order. */
  lemma NoMarkers(message: string, chars: string)
    requires |chars| == 5
    requires chars[0] in "Missing required" && chars[1] in "Invalid" && chars[2] in "Insufficient balance"
    requires chars[3] in "Service" && chars[4] in "AWS"
    requires Avoids(message, chars)
    ensures StatusOf(Error(message)) == 500
  {
    StatusChain(message);
    forall k | 0 <= k < 5 ensures chars[k] !in message {
      assert forall i :: 0 <= i < |message| ==> message[i] != chars[k];
    }
    AbsentCharExcludes(message, "Missing required", chars[0]);
    AbsentCharExcludes(message, "Invalid", chars[1]);
    AbsentCharExcludes(message, "Insufficient balance", chars[2]);
    AbsentCharExcludes(message, "Service", chars[3]);
    AbsentCharExcludes(message, "AWS", chars[4]);
  }

  /** A message that starts with a marker of the first line is a 400. */
  lemma ClientErrorMarker(message: string, marker: string)
    requires marker == "Missing required" || marker == "Invalid"
    requires marker <= message
    ensures StatusOf(Error(message)) == 400
  {
    StartsWith(message, marker);
    StatusChain(message);
  }

  /** A missing body is answered with 500: its message holds no marker. */
  lemma MissingBodyStatus()
    ensures StatusOf(Error(BodyRequiredMessage)) == 500
  {
    NoMarkers(BodyRequiredMessage, "MvISW");
  }

  /** Malformed JSON is a 400. */
  lemma InvalidJsonStatus()
    ensures StatusOf(Error(InvalidJsonMessage)) == 400
  {
    ClientErrorMarker(InvalidJsonMessage, "Invalid");
  }

  /** A missing required field is a 400. */
  lemma MissingFieldsStatus()
    ensures StatusOf(Error(MissingFieldsMessage)) == 400
  {
    ClientErrorMarker(MissingFieldsMessage, "Missing required");
  }

  /** An empty or non-array list of URLs is answered with 500: its message
      holds no marker. */
  lemma EmptyUrlsStatus()
    ensures StatusOf(Error(EmptyUrlsMessage)) == 500
  {
    NoMarkers(EmptyUrlsMessage, "MvISW");
  }

  /** A malformed address is a 400. */
  lemma InvalidEmailStatus()
    ensures StatusOf(Error(InvalidEmailMessage)) == 400
  {
    ClientErrorMarker(InvalidEmailMessage, "Invalid");
  }

  /** A rejected batch of file types is a client error. */
  lemma InvalidTypesStatus(invalid: seq<string>)
    ensures StatusOf(Error(Pinata.PinataFailurePrefix + Pinata.InvalidTypesMessage(invalid))) == 400
  {
    var message := Pinata.InvalidTypesMessage(invalid);
    StartsWith(message, "Invalid");
    IncludesInConcat(Pinata.PinataFailurePrefix, message, "Invalid");
    StatusChain(Pinata.PinataFailurePrefix + message);
  }

  // ---------------------------------------------------------------------------
  // The pipeline

  /** The parser and the remote services the handler uses, and the clock
      reading stamped on the manifest. */
  datatype Environment = Environment(
    parseJson: string -> ParsedBody,
    storage: Pinata.Storage,
    ledger: Blockchain.Ledger,
    timestamp: string)

  /** A remote call of either service. */
  datatype RemoteCall = StorageCall(storageCall: Pinata.Call) | LedgerCall(ledgerCall: Blockchain.Call)

  datatype PropertyCreationResult = PropertyCreationResult(
    success: bool,
    tokenId: int,
    transactionHash: string,
    metadataCID: string,
    message: string)

  /** The JSON body of a response. */
  datatype ResponseBody = Created(data: PropertyCreationResult, message: string) | Failed(error: string)

  datatype Response = Response(statusCode: int, body: ResponseBody)

  function StorageCalls(calls: seq<Pinata.Call>): seq<RemoteCall>
  {
    seq(|calls|, i requires 0 <= i < |calls| => StorageCall(calls[i]))
  }

  function LedgerCalls(calls: seq<Blockchain.Call>): seq<RemoteCall>
  {
    seq(|calls|, i requires 0 <= i < |calls| => LedgerCall(calls[i]))
  }

  /** Storage calls are exactly the lifted calls, and none is a ledger call. */
  lemma StorageCallsHold(calls: seq<Pinata.Call>)
    ensures forall c :: StorageCall(c) in StorageCalls(calls) <==> c in calls
    ensures forall c :: LedgerCall(c) !in StorageCalls(calls)
  {
    forall c | c in calls ensures StorageCall(c) in StorageCalls(calls) {
      var i :| 0 <= i < |calls| && calls[i] == c;
      assert StorageCalls(calls)[i] == StorageCall(c);
    }
  }

  /** Ledger calls are exactly the lifted calls, and none is a storage call. */
  lemma LedgerCallsHold(calls: seq<Blockchain.Call>)
    ensures forall c :: LedgerCall(c) in LedgerCalls(calls) <==> c in calls
    ensures forall c :: StorageCall(c) !in LedgerCalls(calls)
  {
    forall c | c in calls ensures LedgerCall(c) in LedgerCalls(calls) {
      var i :| 0 <= i < |calls| && calls[i] == c;
      assert LedgerCalls(calls)[i] == LedgerCall(c);
    }
  }

  /** The argument of `uploadS3Files`: the full name as owner, and no
      property type. */
  function UploadRequestOf(request: ValidRequest): Pinata.UploadRequest
  {
    Pinata.UploadRequest(request.propertyId, Some(request.fileUrls), request.userFullName, None, request.propertyName)
  }

  /** What the upload stage yields: the batch's outcome and its storage calls. */
  type UploadRun = (Outcome<Pinata.UploadResult>, seq<Pinata.Call>)

  function Upload(request: ValidRequest, env: Environment): UploadRun
  {
    Pinata.UploadS3Files(UploadRequestOf(request), env.storage, env.timestamp)
  }

  /** The upload succeeded and named a manifest. */
  predicate CidReady(uploaded: Outcome<Pinata.UploadResult>)
  {
    uploaded.Ok? && uploaded.value.metadataCID != ""
  }

  /** The upload named a manifest and the wallet can pay for registering it. */
  predicate FundsConfirmed(uploaded: Outcome<Pinata.UploadResult>, ledger: Blockchain.Ledger)
  {
    CidReady(uploaded) && Blockchain.EnsureSufficientBalance(uploaded.value.metadataCID, ledger).0.Ok?
  }

  /** The funds check on a manifest's CID and, when it passes, the
      registration of that CID; a registration yields the success result. */
  function Settle(cid: string, ledger: Blockchain.Ledger): (Outcome<PropertyCreationResult>, seq<Blockchain.Call>)
  {
    var funds := Blockchain.EnsureSufficientBalance(cid, ledger);
    if funds.0.Fail? then (Fail(funds.0.error), funds.1)
    else
      var registered := Blockchain.RegisterLandRun(cid, ledger);
      var calls := funds.1 + registered.1;
      match registered.0
      case Fail(e) => (Fail(e), calls)
      case Ok(registration) =>
        (Ok(PropertyCreationResult(true, registration.tokenId, registration.hash, cid, SuccessMessage)), calls)
  }

  /** The stages of the `try` block after the upload, as a value: the test
      for a manifest CID, then the funds check and the registration, each
      begun only when the one before it succeeded; with the remote calls of
      both services in order. */
  function AfterUpload(upload: UploadRun, ledger: Blockchain.Ledger): (Outcome<PropertyCreationResult>, seq<RemoteCall>)
  {
    var stored := StorageCalls(upload.1);
    match upload.0
    case Fail(e) => (Fail(e), stored)
    case Ok(uploaded) =>
      if uploaded.metadataCID == "" then (Fail(Error(NoMetadataCidMessage)), stored)
      else
        var settled := Settle(uploaded.metadataCID, ledger);
        (settled.0, stored + LedgerCalls(settled.1))
  }

  /** The whole `try` block after validation. */
  function Pipeline(request: ValidRequest, env: Environment): (Outcome<PropertyCreationResult>, seq<RemoteCall>)
  {
    AfterUpload(Upload(request, env), env.ledger)
  }

  /** Each stage ends the pipeline when it fails: a failed upload or one
      without a manifest CID reaches no ledger, and a failed funds check
      sends nothing. */
  lemma PipelineStages(upload: UploadRun, ledger: Blockchain.Ledger)
    ensures StorageCalls(upload.1) <= AfterUpload(upload, ledger).1
    ensures upload.0.Fail? ==> AfterUpload(upload, ledger) == (Fail(upload.0.error), StorageCalls(upload.1))
    ensures upload.0.Ok? && !CidReady(upload.0) ==>
      AfterUpload(upload, ledger) == (Fail(Error(NoMetadataCidMessage)), StorageCalls(upload.1))
    ensures CidReady(upload.0) && !FundsConfirmed(upload.0, ledger) ==>
      var funds := Blockchain.EnsureSufficientBalance(upload.0.value.metadataCID, ledger);
      AfterUpload(upload, ledger) == (Fail(funds.0.error), StorageCalls(upload.1) + LedgerCalls(funds.1))
  {
  }

  /** After an upload whose failures are `Error`s, the pipeline succeeds
      exactly when the funds are confirmed and the ledger grants the
      registration, and then reports that registration's token id and hash
      with the manifest's CID; every failure is an `Error`. */
  lemma PipelineOutcome(upload: UploadRun, ledger: Blockchain.Ledger)
    requires upload.0.Fail? ==> upload.0.error.Error?
    ensures var outcome := AfterUpload(upload, ledger).0;
      && (outcome.Ok? <==>
            FundsConfirmed(upload.0, ledger) && Blockchain.RegistrationOf(upload.0.value.metadataCID, ledger).Some?)
      && (outcome.Fail? ==> outcome.error.Error?)
    ensures AfterUpload(upload, ledger).0.Ok? ==>
      var registration := Blockchain.RegistrationOf(upload.0.value.metadataCID, ledger).value;
      AfterUpload(upload, ledger).0.value ==
        PropertyCreationResult(true, registration.tokenId, registration.hash, upload.0.value.metadataCID, SuccessMessage)
  {
    if CidReady(upload.0) {
      Blockchain.RegisterLandOutcome(upload.0.value.metadataCID, ledger);
    }
  }

  /** The storage calls of the pipeline are those of the upload. No ledger
      call happens without a manifest CID; the ledger is asked about, and
      sent, that CID alone, only after the funds check passed, and sent it
      only when it is unused. */
  lemma PipelineCalls(upload: UploadRun, ledger: Blockchain.Ledger)
    ensures var trace := AfterUpload(upload, ledger).1;
      && (forall c :: StorageCall(c) in trace <==> c in upload.1)
      && (forall c :: LedgerCall(c) in trace ==> CidReady(upload.0))
    ensures var trace := AfterUpload(upload, ledger).1;
      && (forall cid :: LedgerCall(Blockchain.IsCidUsed(cid)) in trace ==>
            FundsConfirmed(upload.0, ledger) && cid == upload.0.value.metadataCID)
      && (forall cid :: LedgerCall(Blockchain.SendRegister(cid)) in trace ==>
            && FundsConfirmed(upload.0, ledger) && cid == upload.0.value.metadataCID
            && ledger.isCidUsed(cid) == Ok(false))
  {
    StorageCallsHold(upload.1);
    if CidReady(upload.0) {
      var cid := upload.0.value.metadataCID;
      var settled := Settle(cid, ledger);
      LedgerCallsHold(settled.1);
      Blockchain.GateOnlyReads(cid, ledger);
      Blockchain.RegisterLandCalls(cid, ledger);
    }
  }

  /** The manifest pinned for a property names that property, the user's
      full name as its owner (or the default), and no property type. */
  lemma PipelineManifest(request: ValidRequest, env: Environment)
    ensures forall c :: StorageCall(c) in Pipeline(request, env).1 && c.PinJson? ==>
      && c.metadata.propertyId == request.propertyId
      && c.metadata.propertyOwnerName == Pinata.OrDefault(request.userFullName, "Unknown Owner")
      && c.metadata.propertyType == ""
  {
    Pinata.ManifestCallsCarryRequest(UploadRequestOf(request), env.storage, env.timestamp);
    PipelineCalls(Upload(request, env), env.ledger);
  }

  /** The stages after the upload, step by step: `metadataCID` and the
      registration are assigned in turn. */
  method CompletePipeline(upload: UploadRun, ledger: Blockchain.Ledger) returns (outcome: Outcome<PropertyCreationResult>, trace: seq<RemoteCall>)
    ensures outcome == AfterUpload(upload, ledger).0
    ensures trace == AfterUpload(upload, ledger).1
  {
    trace := StorageCalls(upload.1);
    if upload.0.Fail? {
      outcome := Fail(upload.0.error);
      return;
    }
    var metadataCID := upload.0.value.metadataCID;
    if metadataCID == "" {
      outcome := Fail(Error(NoMetadataCidMessage));
      return;
    }
    var funds := Blockchain.EnsureSufficientBalance(metadataCID, ledger);
    trace := trace + LedgerCalls(funds.1);
    if funds.0.Fail? {
      outcome := Fail(funds.0.error);
      return;
    }
    var registered, calls := Blockchain.RegisterLand(metadataCID, ledger);
    trace := trace + LedgerCalls(calls);
    assert LedgerCalls(funds.1 + calls) == LedgerCalls(funds.1) + LedgerCalls(calls);
    if registered.Fail? {
      outcome := Fail(registered.error);
    } else {
      outcome := Ok(PropertyCreationResult(true, registered.value.tokenId, registered.value.hash, metadataCID, SuccessMessage));
    }
  }

  /** The pipeline: the upload, then the stages after it. */
  method RunPipeline(request: ValidRequest, env: Environment) returns (outcome: Outcome<PropertyCreationResult>, trace: seq<RemoteCall>)
    ensures outcome == Pipeline(request, env).0
    ensures trace == Pipeline(request, env).1
  {
    var upload := Pinata.UploadS3Files(UploadRequestOf(request), env.storage, env.timestamp);
    outcome, trace := CompletePipeline(upload, env.ledger);
  }

  /** The response to a thrown value. */
  function ErrorResponse(t: Thrown): Response
  {
    Response(StatusOf(t), Failed(MessageOr(t, InternalServerError)))
  }

  /** The end of the `try` block, or its `catch`: a result is a 200
      carrying it, a thrown value the response it selects. */
  function Respond(outcome: Outcome<PropertyCreationResult>): Response
  {
    match outcome
    case Fail(e) => ErrorResponse(e)
    case Ok(result) => Response(200, Created(result, result.message))
  }

  /** Only a result gives a 200; a thrown `Error` gives an error body whose
      status is the one its own message selects, one of four codes. */
  lemma RespondStatus(outcome: Outcome<PropertyCreationResult>)
    requires outcome.Fail? ==> outcome.error.Error?
    ensures var response := Respond(outcome);
      && (response.statusCode == 200 <==> outcome.Ok?)
      && (outcome.Ok? ==> response.body == Created(outcome.value, outcome.value.message))
      && (response.statusCode != 200 ==>
            && response.body.Failed?
            && response.statusCode == StatusOf(Error(response.body.error))
            && response.statusCode in {400, 402, 500, 503})
  {
    if outcome.Fail? {
      StatusPrecedence(outcome.error.message);
    }
  }

  /** The handler as a value: validation first, touching no service; then
      the pipeline; whatever either throws reaches the same `catch`. */
  function Handle(body: Option<string>, env: Environment): (Response, seq<RemoteCall>)
  {
    match ValidateRequest(body, env.parseJson)
    case Fail(e) => (Respond(Fail(e)), [])
    case Ok(request) =>
      var run := Pipeline(request, env);
      (Respond(run.0), run.1)
  }

  /** The request was valid, its funds were confirmed and the ledger
      granted the registration of its manifest. */
  predicate Registered(body: Option<string>, env: Environment)
  {
    && ValidateRequest(body, env.parseJson).Ok?
    && var uploaded := Upload(ValidateRequest(body, env.parseJson).value, env).0;
    && FundsConfirmed(uploaded, env.ledger)
    && Blockchain.RegistrationOf(uploaded.value.metadataCID, env.ledger).Some?
  }

  /** A 200 comes exactly from a registered request, and carries the token
      id and hash of the registration and the manifest's CID. */
  lemma HandlerSuccess(body: Option<string>, env: Environment)
    ensures Handle(body, env).0.statusCode == 200 <==> Registered(body, env)
    ensures Registered(body, env) ==>
      var uploaded := Upload(ValidateRequest(body, env.parseJson).value, env).0;
      var registration := Blockchain.RegistrationOf(uploaded.value.metadataCID, env.ledger).value;
      var result := PropertyCreationResult(true, registration.tokenId, registration.hash, uploaded.value.metadataCID, SuccessMessage);
      Handle(body, env).0 == Response(200, Created(result, SuccessMessage))
  {
    var validated := ValidateRequest(body, env.parseJson);
    if validated.Ok? {
      PipelineOutcome(Upload(validated.value, env), env.ledger);
      RespondStatus(Pipeline(validated.value, env).0);
    } else {
      RespondStatus(Fail(validated.error));
    }
  }

  /** Any other response is an error body whose status is the one its own
      message selects, one of four codes. */
  lemma HandlerFailure(body: Option<string>, env: Environment)
    ensures var response := Handle(body, env).0;
      response.statusCode != 200 ==>
        && response.body.Failed?
        && response.statusCode == StatusOf(Error(response.body.error))
        && response.statusCode in {400, 402, 500, 503}
  {
    var validated := ValidateRequest(body, env.parseJson);
    if validated.Ok? {
      PipelineOutcome(Upload(validated.value, env), env.ledger);
      RespondStatus(Pipeline(validated.value, env).0);
    } else {
      RespondStatus(Fail(validated.error));
    }
  }

  /** A rejected request touches no service; a transaction is sent only
      for the manifest of a valid request whose funds were confirmed and
      whose CID is unused; and no manifest carries a property type. */
  lemma HandlerCalls(body: Option<string>, env: Environment)
    ensures ValidateRequest(body, env.parseJson).Fail? ==>
      Handle(body, env) == (ErrorResponse(ValidateRequest(body, env.parseJson).error), [])
    ensures forall cid :: LedgerCall(Blockchain.SendRegister(cid)) in Handle(body, env).1 ==>
      && ValidateRequest(body, env.parseJson).Ok?
      && var uploaded := Upload(ValidateRequest(body, env.parseJson).value, env).0;
      && FundsConfirmed(uploaded, env.ledger) && cid == uploaded.value.metadataCID
      && env.ledger.isCidUsed(cid) == Ok(false)
    ensures forall c :: StorageCall(c) in Handle(body, env).1 && c.PinJson? ==> c.metadata.propertyType == ""
  {
    var validated := ValidateRequest(body, env.parseJson);
    if validated.Ok? {
      PipelineCalls(Upload(validated.value, env), env.ledger);
      PipelineManifest(validated.value, env);
    }
  }

  /** The handler, step by step: the `catch` block sets the status and the
      message through its if-chain. */
  method PropertyCreationHandler(body: Option<string>, env: Environment) returns (response: Response, trace: seq<RemoteCall>)
    ensures response == Handle(body, env).0
    ensures trace == Handle(body, env).1
  {
    var validated := ValidateRequest(body, env.parseJson);
    if validated.Fail? {
      var statusCode, errorMessage := ErrorStatus(validated.error);
      response := Response(statusCode, Failed(errorMessage));
      trace := [];
      return;
    }
    var outcome;
    outcome, trace := RunPipeline(validated.value, env);
    if outcome.Fail? {
      var statusCode, errorMessage := ErrorStatus(outcome.error);
      response := Response(statusCode, Failed(errorMessage));
      return;
    }
    response := Response(200, Created(outcome.value, outcome.value.message));
  }
}
