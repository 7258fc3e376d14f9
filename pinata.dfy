/** The document side of `PinataService`: batch validation of file URLs,
    fetching and pinning of each file, assembly and pinning of the metadata
    manifest, and the shaping of the upload result.

    The download service and the pinning service are given as functions of
    their requests (`Storage`). Every operation returns, with its result, the
    sequence of remote calls it issued, so that "nothing was downloaded" or
    "this file was not pinned" can be stated. */
module Pinata {
  import opened Text
  import opened Outcomes

  newtype byte = x: int | 0 <= x < 256

  /** One pinned document, as it appears in the manifest. */
  datatype UploadedFileMetadata = UploadedFileMetadata(name: string, documentType: string, cid: string)

  /** The manifest pinned as JSON. */
  datatype PropertyDocumentsMetadata = PropertyDocumentsMetadata(
    propertyId: string,
    propertyOwnerName: string,
    propertyType: string,
    propertyName: string,
    documents: seq<UploadedFileMetadata>,
    timestamp: string)

  /** The argument of `uploadS3Files`; a `None` field is one left undefined. */
  datatype UploadRequest = UploadRequest(
    propertyId: string,
    fileUrls: Option<seq<string>>,
    propertyOwnerName: Option<string>,
    propertyType: Option<string>,
    propertyName: Option<string>)

  /** One entry of `uploadedFiles` in the result of `uploadS3Files`. */
  datatype UploadedFile = UploadedFile(fileName: string, cid: string, size: nat)

  datatype UploadResult = UploadResult(
    success: bool,
    message: string,
    metadataCID: string,
    uploadedFiles: seq<UploadedFile>)

  /** The remote services: the HTTP download of a URL, `pinFileToIPFS` of a
      named byte buffer and `pinJSONToIPFS` of a manifest, each yielding its
      content identifier or what it threw. */
  datatype Storage = Storage(
    download: string -> Outcome<seq<byte>>,
    pinFile: (string, seq<byte>) -> Outcome<string>,
    pinJson: PropertyDocumentsMetadata -> Outcome<string>)

  /** A remote call issued by the service. */
  datatype Call =
    | Download(url: string)
    | PinFile(name: string, content: seq<byte>)
    | PinJson(metadata: PropertyDocumentsMetadata)

  const MaxUrlCount: nat := 20
  const MaxFileSize: nat := 10 * 1024 * 1024

  /** The extensions accepted when a batch is validated. */
  const AllowedExtensions: seq<string> :=
    ["pdf", "doc", "docx", "jpg", "jpeg", "png", "json", "txt", "csv", "xls", "xlsx"]

  /** `mimeTypeMap`: the extensions accepted when a single file is fetched,
      with their MIME types. */
  function MimeTypeOf(extension: string): Option<string>
  {
    match extension
    case "pdf" => Some("application/pdf")
    case "doc" => Some("application/msword")
    case "docx" => Some("application/vnd.openxmlformats-officedocument.wordprocessingml.document")
    case "jpg" => Some("image/jpeg")
    case "jpeg" => Some("image/jpeg")
    case "png" => Some("image/png")
    case "json" => Some("application/json")
    case "txt" => Some("text/plain")
    case "csv" => Some("text/csv")
    case "xls" => Some("application/vnd.ms-excel")
    case "xlsx" => Some("application/vnd.openxmlformats-officedocument.spreadsheetml.sheet")
    case "ppt" => Some("application/vnd.ms-powerpoint")
    case "pptx" => Some("application/vnd.openxmlformats-officedocument.presentationml.presentation")
    case _ => None
  }

  const UnknownError := "Unknown error occurred"
  const NoUrlsMessage := "No file URLs provided"
  const PinataFailurePrefix := "Pinata upload failed: "
  const S3FailurePrefix := "Failed to upload file from S3 URL: "
  const PinFileFailurePrefix := "Failed to upload file to IPFS: "
  const PinJsonFailurePrefix := "Failed to upload metadata to IPFS: "

  function TooManyUrlsMessage(count: nat): string
  {
    "Too many URLs provided. Maximum 20 URLs allowed, received " + NatToDecimal(count)
  }

  function InvalidTypesMessage(invalid: seq<string>): string
  {
    "Invalid file types detected. "
    + "Only PDF, DOC, DOCX, JPG, PNG, JSON, TXT, CSV, XLS, XLSX are allowed for property documents. Invalid files: "
    + Join(invalid, ", ")
  }

  function UnsupportedTypeMessage(extension: string): string
  {
    "Unsupported file type: " + extension
    + ". Only PDF, DOC, DOCX, JPG, PNG, JSON, TXT, CSV, XLS, XLSX, PPT, PPTX are allowed for property documents."
  }

  function TooLargeMessage(fileName: string, size: nat): string
  {
    "File " + fileName + " exceeds 10MB limit. Size: " + NatToDecimal(size) + " bytes"
  }

  // ---------------------------------------------------------------------------
  // File names and extensions

  /** `url.split("/")`, its last part, then `.split("?")[0]`. */
  function FileNameOf(url: string): string
  {
    Split(Last(Split(url, '/')), '?')[0]
  }

  /** The file name is the text after the last slash of the URL, up to the
      first question mark after that slash; it holds neither character. */
  lemma FileNameOfShape(url: string)
    ensures var segment := url[LastIndexOf(url, '/') + 1..];
      FileNameOf(url) == segment[..IndexOrEnd(segment, '?')]
    ensures '/' !in FileNameOf(url) && '?' !in FileNameOf(url)
  {
    var segment := Last(Split(url, '/'));
    LastPartAfterLastSeparator(url, '/');
    FirstPartBeforeFirstSeparator(segment, '?');
    var name := segment[..IndexOrEnd(segment, '?')];
    assert forall i :: 0 <= i < |name| ==> name[i] == segment[i];
  }

  /** `fileName.split(".").pop()?.toLowerCase()`. */
  function ExtensionOf(fileName: string): string
  {
    ToLower(Last(Split(fileName, '.')))
  }

  /** The extension is the lower-cased text after the last dot, or the whole
      lower-cased name when there is no dot. */
  lemma ExtensionOfShape(fileName: string)
    ensures ExtensionOf(fileName) == ToLower(fileName[LastIndexOf(fileName, '.') + 1..])
    ensures '.' !in fileName ==> ExtensionOf(fileName) == ToLower(fileName)
  {
    LastPartAfterLastSeparator(fileName, '.');
  }

  /** The batch filter's test: the extension is on the list (the empty
      extension, which the filter rejects separately, is not on it). */
  predicate IsAllowedUrl(url: string)
  {
    ExtensionOf(FileNameOf(url)) in AllowedExtensions
  }

  // ---------------------------------------------------------------------------
  // Deduplication: `[...new Set(urls)]`

  predicate NoDuplicates<T(==)>(s: seq<T>)
  {
    forall i, j :: 0 <= i < j < |s| ==> s[i] != s[j]
  }

  /** The position of the first occurrence of `x` in `s`. */
  function FirstIndex<T(==)>(s: seq<T>, x: T): (k: nat)
    requires x in s
    ensures k < |s| && s[k] == x
    ensures forall j :: 0 <= j < k ==> s[j] != x
  {
    if s[0] == x then 0 else 1 + FirstIndex(s[1..], x)
  }

  /** The distinct elements of `s` in the order a `Set` built from `s`
      enumerates them: by first insertion. */
  function Dedup(s: seq<string>): (r: seq<string>)
    ensures NoDuplicates(r)
    ensures forall x :: x in r <==> x in s
    ensures |r| <= |s|
  {
    if |s| == 0 then []
    else
      var r := Dedup(s[..|s| - 1]);
      assert forall x :: x in s <==> x in s[..|s| - 1] || x == s[|s| - 1] by {
        assert s == s[..|s| - 1] + [s[|s| - 1]];
      }
      if s[|s| - 1] in r then r else r + [s[|s| - 1]]
  }

  /** The elements of `Dedup(s)` appear in the order of their first
      occurrences in `s`. */
  lemma {:induction false} DedupKeepsFirstOccurrenceOrder(s: seq<string>)
    ensures forall i, j :: 0 <= i < j < |Dedup(s)| ==>
      FirstIndex(s, Dedup(s)[i]) < FirstIndex(s, Dedup(s)[j])
  {
    if |s| > 0 {
      var init := s[..|s| - 1];
      var x := s[|s| - 1];
      DedupKeepsFirstOccurrenceOrder(init);
      assert s == init + [x];
      forall y | y in init ensures FirstIndex(s, y) == FirstIndex(init, y) {
        FirstIndexOfPrefix(init, [x], y);
      }
      if x !in init {
        var r := Dedup(s);
        assert FirstIndex(s, x) == |s| - 1;
        forall i | 0 <= i < |r| - 1 ensures FirstIndex(s, r[i]) < |s| - 1 {
          assert r[i] in init;
        }
      }
    }
  }

  lemma {:induction false} FirstIndexOfPrefix<T>(a: seq<T>, b: seq<T>, y: T)
    requires y in a
    ensures FirstIndex(a + b, y) == FirstIndex(a, y)
  {
    if a[0] != y {
      assert (a + b)[1..] == a[1..] + b;
      FirstIndexOfPrefix(a[1..], b, y);
    }
  }

  /** Deduplication changes nothing exactly when there is nothing to remove. */
  lemma {:induction false} DedupIdentityIffNoDuplicates(s: seq<string>)
    ensures Dedup(s) == s <==> NoDuplicates(s)
  {
    if |s| > 0 {
      var init := s[..|s| - 1];
      var x := s[|s| - 1];
      DedupIdentityIffNoDuplicates(init);
      assert s == init + [x];
      if NoDuplicates(s) {
        assert NoDuplicates(init) by {
          forall i, j | 0 <= i < j < |init| ensures init[i] != init[j] {
            assert init[i] == s[i] && init[j] == s[j];
          }
        }
        assert x !in init by {
          forall i | 0 <= i < |init| ensures init[i] != x {
            assert init[i] == s[i];
          }
        }
      }
    }
  }

  /** A repeated document collapses to one
      entry, and the order of first occurrence is kept. */
  lemma DedupScenario()
    ensures Dedup(["https://x/doc.pdf", "https://x/doc.pdf", "https://x/img.png"])
         == ["https://x/doc.pdf", "https://x/img.png"]
  {
    var doc, img := "https://x/doc.pdf", "https://x/img.png";
    assert doc[10] != img[10];
    DedupRepeatThenOther(doc, img);
  }

  lemma DedupRepeatThenOther(a: string, b: string)
    requires a != b
    ensures Dedup([a, a, b]) == [a, b]
  {
    assert [a, a, b][..2] == [a, a];
    assert [a, a][..1] == [a];
    var none: seq<string> := [];
    assert [a][..0] == none;
    assert Dedup([a]) == [a];
    assert Dedup([a, a]) == [a];
  }

  // ---------------------------------------------------------------------------
  // Batch validation (the part of `uploadS3Files` before any download)

  /** `uniqueUrls.filter(...)`: the URLs the allow-list rejects, in order
      (`InvalidFilesKeepOrder`). */
  function InvalidFiles(urls: seq<string>): (invalid: seq<string>)
    ensures forall u :: u in invalid <==> u in urls && !IsAllowedUrl(u)
    ensures |invalid| <= |urls|
  {
    if |urls| == 0 then []
    else
      var rest := InvalidFiles(urls[1..]);
      assert forall u :: u in urls <==> u == urls[0] || u in urls[1..] by {
        assert urls == [urls[0]] + urls[1..];
      }
      if IsAllowedUrl(urls[0]) then rest else [urls[0]] + rest
  }

  /** The checks `uploadS3Files` makes before any download, in its order:
      presence, the count of the raw list, then the allow-list on the
      deduplicated list. */
  function ValidateUrls(fileUrls: Option<seq<string>>): (r: Outcome<seq<string>>)
    ensures r.Ok? <==>
      fileUrls.Some? && 0 < |fileUrls.value| <= MaxUrlCount
      && forall u :: u in fileUrls.value ==> IsAllowedUrl(u)
    ensures r.Ok? ==> r.value == Dedup(fileUrls.value)
    ensures fileUrls.None? || |fileUrls.value| == 0 ==> r == Fail(Error(NoUrlsMessage))
    ensures fileUrls.Some? && |fileUrls.value| > MaxUrlCount ==>
      r == Fail(Error(TooManyUrlsMessage(|fileUrls.value|)))
    ensures fileUrls.Some? && 0 < |fileUrls.value| <= MaxUrlCount && InvalidFiles(Dedup(fileUrls.value)) != [] ==>
      r == Fail(Error(InvalidTypesMessage(InvalidFiles(Dedup(fileUrls.value)))))
    ensures r.Fail? ==> r.error.Error?
  {
    if fileUrls.None? || |fileUrls.value| == 0 then Fail(Error(NoUrlsMessage))
    else if |fileUrls.value| > MaxUrlCount then Fail(Error(TooManyUrlsMessage(|fileUrls.value|)))
    else
      var uniqueUrls := Dedup(fileUrls.value);
      var invalidFiles := InvalidFiles(uniqueUrls);
      if |invalidFiles| > 0 then
        assert invalidFiles[0] in fileUrls.value && !IsAllowedUrl(invalidFiles[0]);
        Fail(Error(InvalidTypesMessage(invalidFiles)))
      else
        assert forall u :: u in fileUrls.value ==> u in uniqueUrls && u !in invalidFiles;
        Ok(uniqueUrls)
  }

  // ---------------------------------------------------------------------------
  // One file: `uploadFile` and `uploadFileFromS3Url`

  /** `uploadFile`: pin a named byte buffer. */
  function UploadFile(name: string, content: seq<byte>, storage: Storage): (r: (Outcome<string>, seq<Call>))
    ensures r.1 == [PinFile(name, content)]
    ensures r.0.Ok? <==> storage.pinFile(name, content).Ok?
    ensures r.0.Ok? ==> r.0.value == storage.pinFile(name, content).value
    ensures r.0.Fail? ==> r.0.error.Error? && PinFileFailurePrefix <= r.0.error.message
  {
    match storage.pinFile(name, content)
    case Ok(cid) => (Ok(cid), [PinFile(name, content)])
    case Fail(e) => (Fail(Error(PinFileFailurePrefix + MessageOr(e, UnknownError))), [PinFile(name, content)])
  }

  /** The body of the `try` block of `uploadFileFromS3Url`: download, name
      the file, type it by extension, enforce the size ceiling, pin it. The
      errors are the ones thrown inside the block. */
  function FetchAndPin(url: string, storage: Storage): (Outcome<UploadedFileMetadata>, seq<Call>)
  {
    var response := storage.download(url);
    if response.Fail? then
      (Fail(response.error), [Download(url)])
    else
      var lastPart := Last(Split(url, '/'));
      var fileName := if '?' in lastPart then Split(lastPart, '?')[0] else lastPart;
      var fileExtension := ToLower(Last(Split(fileName, '.')));
      if MimeTypeOf(fileExtension).None? then
        (Fail(Error(UnsupportedTypeMessage(fileExtension))), [Download(url)])
      else
        var mimeType := MimeTypeOf(fileExtension).value;
        var fileBuffer := response.value;
        if |fileBuffer| > MaxFileSize then
          (Fail(Error(TooLargeMessage(fileName, |fileBuffer|))), [Download(url)])
        else
          var pinned := UploadFile(fileName, fileBuffer, storage);
          match pinned.0
          case Fail(e) => (Fail(e), [Download(url)] + pinned.1)
          case Ok(cid) => (Ok(UploadedFileMetadata(fileName, mimeType, cid)), [Download(url)] + pinned.1)
  }

  /** `uploadFileFromS3Url`: what the `try` block yields, with every failure
      rethrown under the S3 prefix. A file is pinned only once it has been
      downloaded, has a supported extension and fits the size ceiling. */
  function UploadFileFromS3Url(url: string, storage: Storage): (r: (Outcome<UploadedFileMetadata>, seq<Call>))
    ensures |r.1| >= 1 && r.1[0] == Download(url)
    ensures r.0.Ok? <==>
      && storage.download(url).Ok?
      && MimeTypeOf(ExtensionOf(FileNameOf(url))).Some?
      && |storage.download(url).value| <= MaxFileSize
      && storage.pinFile(FileNameOf(url), storage.download(url).value).Ok?
    ensures r.0.Ok? ==> r.0.value == UploadedFileMetadata(
      FileNameOf(url),
      MimeTypeOf(ExtensionOf(FileNameOf(url))).value,
      storage.pinFile(FileNameOf(url), storage.download(url).value).value)
    ensures r.0.Fail? ==> r.0.error.Error? && S3FailurePrefix <= r.0.error.message
    ensures forall c :: c in r.1 ==> !c.PinJson?
  {
    var lastPart := Last(Split(url, '/'));
    assert FileNameOf(url) == if '?' in lastPart then Split(lastPart, '?')[0] else lastPart by {
      if '?' !in lastPart {
        SplitWithoutSeparator(lastPart, '?');
      }
    }
    var attempt := FetchAndPin(url, storage);
    match attempt.0
    case Ok(file) => attempt
    case Fail(e) => (Fail(Error(S3FailurePrefix + MessageOr(e, UnknownError))), attempt.1)
  }

  /** `uploadFileFromS3Url` step by step, as the service runs it: the file
      name is taken and then cut at the query, the MIME type starts as the
      generic one and is replaced by the mapped one, and the first failing
      step ends the attempt. It computes what `UploadFileFromS3Url`
      specifies. */
  method FetchFile(url: string, storage: Storage) returns (result: Outcome<UploadedFileMetadata>, calls: seq<Call>)
    ensures (result, calls) == UploadFileFromS3Url(url, storage)
  {
    var response := storage.download(url);
    calls := [Download(url)];
    if response.Fail? {
      result := Fail(Error(S3FailurePrefix + MessageOr(response.error, UnknownError)));
      return;
    }
    var urlParts := Split(url, '/');
    var fileName := urlParts[|urlParts| - 1];
    if '?' in fileName {
      fileName := Split(fileName, '?')[0];
    } else {
      SplitWithoutSeparator(fileName, '?');
    }
    assert fileName == FileNameOf(url);
    var fileExtension := ToLower(Last(Split(fileName, '.')));
    assert fileExtension == ExtensionOf(FileNameOf(url));
    var mimeType := "application/octet-stream";
    if MimeTypeOf(fileExtension).Some? {
      mimeType := MimeTypeOf(fileExtension).value;
    } else {
      UnsupportedTypeRefused(url, storage);
      result := Fail(Error(S3FailurePrefix + UnsupportedTypeMessage(fileExtension)));
      return;
    }
    var fileBuffer := response.value;
    if |fileBuffer| > MaxFileSize {
      OversizedFileRefused(url, storage);
      result := Fail(Error(S3FailurePrefix + TooLargeMessage(fileName, |fileBuffer|)));
      return;
    }
    var pinned := UploadFile(fileName, fileBuffer, storage);
    calls := calls + pinned.1;
    match pinned.0
    case Fail(e) =>
      result := Fail(Error(S3FailurePrefix + MessageOr(e, UnknownError)));
    case Ok(cid) =>
      result := Ok(UploadedFileMetadata(fileName, mimeType, cid));
  }

  /** The only file `uploadFileFromS3Url` pins is the downloaded content of
      its URL, under the URL's file name, with a supported extension and
      within the size ceiling. */
  lemma PinnedFileIsAccepted(url: string, storage: Storage)
    ensures forall c :: c in UploadFileFromS3Url(url, storage).1 && c.PinFile? ==>
      && storage.download(url).Ok?
      && c == PinFile(FileNameOf(url), storage.download(url).value)
      && |c.content| <= MaxFileSize
      && MimeTypeOf(ExtensionOf(c.name)).Some?
  {
    var lastPart := Last(Split(url, '/'));
    assert FileNameOf(url) == if '?' in lastPart then Split(lastPart, '?')[0] else lastPart by {
      if '?' !in lastPart {
        SplitWithoutSeparator(lastPart, '?');
      }
    }
  }

  /** The file name the fetch computes step by step is `FileNameOf`. */
  lemma FetchedName(url: string)
    ensures var lastPart := Last(Split(url, '/'));
      FileNameOf(url) == if '?' in lastPart then Split(lastPart, '?')[0] else lastPart
  {
    var lastPart := Last(Split(url, '/'));
    if '?' !in lastPart {
      SplitWithoutSeparator(lastPart, '?');
    }
  }

  /** A downloaded file whose extension has no MIME type is refused with
      the unsupported-type message and never pinned. */
  lemma UnsupportedTypeRefused(url: string, storage: Storage)
    requires storage.download(url).Ok?
    requires MimeTypeOf(ExtensionOf(FileNameOf(url))).None?
    ensures UploadFileFromS3Url(url, storage)
         == (Fail(Error(S3FailurePrefix + UnsupportedTypeMessage(ExtensionOf(FileNameOf(url))))), [Download(url)])
  {
    var message := UnsupportedTypeMessage(ExtensionOf(FileNameOf(url)));
    UnsupportedTypeInFetch(url, storage);
    assert MessageOr(Error(message), UnknownError) == message;
  }

  lemma UnsupportedTypeInFetch(url: string, storage: Storage)
    requires storage.download(url).Ok?
    requires MimeTypeOf(ExtensionOf(FileNameOf(url))).None?
    ensures FetchAndPin(url, storage) == (Fail(Error(UnsupportedTypeMessage(ExtensionOf(FileNameOf(url))))), [Download(url)])
  {
    FetchedName(url);
  }

  /** A downloaded file of a supported type whose content exceeds 10485760
      bytes is refused with the size message and never pinned. */
  lemma OversizedFileRefused(url: string, storage: Storage)
    requires storage.download(url).Ok? && |storage.download(url).value| > 10485760
    requires MimeTypeOf(ExtensionOf(FileNameOf(url))).Some?
    ensures UploadFileFromS3Url(url, storage)
         == (Fail(Error(S3FailurePrefix + TooLargeMessage(FileNameOf(url), |storage.download(url).value|))), [Download(url)])
  {
    FetchedName(url);
    assert FetchAndPin(url, storage) == (Fail(Error(TooLargeMessage(FileNameOf(url), |storage.download(url).value|))), [Download(url)]);
  }

  // ---------------------------------------------------------------------------
  // The whole batch: `uploadS3Files`

  /** The URLs of the downloads in a call sequence, in order. */
  function DownloadedUrls(calls: seq<Call>): seq<string>
  {
    if |calls| == 0 then []
    else (if calls[0].Download? then [calls[0].url] else []) + DownloadedUrls(calls[1..])
  }

  lemma {:induction false} DownloadedUrlsOfConcat(a: seq<Call>, b: seq<Call>)
    ensures DownloadedUrls(a + b) == DownloadedUrls(a) + DownloadedUrls(b)
  {
    if |a| > 0 {
      assert (a + b)[1..] == a[1..] + b;
      DownloadedUrlsOfConcat(a[1..], b);
    } else {
      assert a + b == b;
    }
  }

  /** The per-file uploads in URL order (the model of `Promise.all` over
      `uniqueUrls.map`): every URL is processed, whatever the others do. */
  function UploadEach(urls: seq<string>, storage: Storage): (r: (seq<Outcome<UploadedFileMetadata>>, seq<Call>))
    ensures |r.0| == |urls|
    ensures forall i :: 0 <= i < |urls| ==> r.0[i] == UploadFileFromS3Url(urls[i], storage).0
  {
    if |urls| == 0 then ([], [])
    else
      var first := UploadFileFromS3Url(urls[0], storage);
      var rest := UploadEach(urls[1..], storage);
      ([first.0] + rest.0, first.1 + rest.1)
  }

  /** Every URL of the list uploads without failure. */
  predicate AllUploaded(urls: seq<string>, storage: Storage)
  {
    forall i :: 0 <= i < |urls| ==> UploadFileFromS3Url(urls[i], storage).0.Ok?
  }

  /** One file is downloaded once, from its own URL. */
  lemma DownloadsOfOneFile(url: string, storage: Storage)
    ensures DownloadedUrls(UploadFileFromS3Url(url, storage).1) == [url]
  {
    var calls := UploadFileFromS3Url(url, storage).1;
    PinnedFileIsAccepted(url, storage);
    assert calls == [Download(url)] + calls[1..];
    DownloadedUrlsOfConcat([Download(url)], calls[1..]);
    if |calls| > 1 {
      assert calls[1..] == [calls[1]];
      assert calls[1] in calls;
    }
  }

  /** The batch downloads exactly its URLs, once each, in order. */
  lemma {:induction false} DownloadsOfEach(urls: seq<string>, storage: Storage)
    ensures DownloadedUrls(UploadEach(urls, storage).1) == urls
  {
    if |urls| > 0 {
      DownloadsOfOneFile(urls[0], storage);
      DownloadsOfEach(urls[1..], storage);
      DownloadedUrlsOfConcat(UploadFileFromS3Url(urls[0], storage).1, UploadEach(urls[1..], storage).1);
      assert urls == [urls[0]] + urls[1..];
    }
  }

  /** Every call the batch issues is a call of the upload of one of its URLs. */
  lemma {:induction false} CallsOfEach(urls: seq<string>, storage: Storage)
    ensures forall c :: c in UploadEach(urls, storage).1 ==>
      exists u :: u in urls && c in UploadFileFromS3Url(u, storage).1
  {
    if |urls| > 0 {
      CallsOfEach(urls[1..], storage);
      forall c | c in UploadEach(urls, storage).1
        ensures exists u :: u in urls && c in UploadFileFromS3Url(u, storage).1
      {
        if c in UploadFileFromS3Url(urls[0], storage).1 {
          assert urls[0] in urls;
        } else {
          var u :| u in urls[1..] && c in UploadFileFromS3Url(u, storage).1;
          assert u in urls;
        }
      }
    }
  }

  /** The position of the first failed upload, if any. */
  function FirstFailure<T>(outcomes: seq<Outcome<T>>): (k: Option<nat>)
    ensures k.Some? ==>
      && k.value < |outcomes| && outcomes[k.value].Fail?
      && forall j :: 0 <= j < k.value ==> outcomes[j].Ok?
    ensures k.None? ==> forall j :: 0 <= j < |outcomes| ==> outcomes[j].Ok?
  {
    if |outcomes| == 0 then None
    else if outcomes[0].Fail? then Some(0)
    else match FirstFailure(outcomes[1..])
      case None => None
      case Some(k) => Some(k + 1)
  }

  /** A failure preceded only by successes is the first failure. */
  lemma {:induction false} FirstFailureAt<T>(outcomes: seq<Outcome<T>>, k: nat)
    requires k < |outcomes| && outcomes[k].Fail?
    requires forall j :: 0 <= j < k ==> outcomes[j].Ok?
    ensures FirstFailure(outcomes) == Some(k)
  {
    if k > 0 {
      FirstFailureAt(outcomes[1..], k - 1);
    }
  }

  function Values<T>(outcomes: seq<Outcome<T>>): (values: seq<T>)
    requires forall j :: 0 <= j < |outcomes| ==> outcomes[j].Ok?
    ensures |values| == |outcomes|
    ensures forall j :: 0 <= j < |outcomes| ==> values[j] == outcomes[j].value
  {
    seq(|outcomes|, j requires 0 <= j < |outcomes| => outcomes[j].value)
  }

  /** `value || fallback`: an undefined or empty string gives the fallback. */
  function OrDefault(o: Option<string>, fallback: string): string
  {
    if o.Some? && o.value != "" then o.value else fallback
  }

  /** The manifest object literal of `uploadS3Files`. */
  function BuildManifest(dto: UploadRequest, documents: seq<UploadedFileMetadata>, timestamp: string): PropertyDocumentsMetadata
  {
    PropertyDocumentsMetadata(
      dto.propertyId,
      OrDefault(dto.propertyOwnerName, "Unknown Owner"),
      OrDefault(dto.propertyType, ""),
      OrDefault(dto.propertyName, ""),
      documents,
      timestamp)
  }

  /** `uploadMetadata`: pin the manifest as JSON. */
  function UploadMetadata(metadata: PropertyDocumentsMetadata, storage: Storage): (r: (Outcome<string>, seq<Call>))
    ensures r.1 == [PinJson(metadata)]
    ensures r.0.Ok? <==> storage.pinJson(metadata).Ok?
    ensures r.0.Ok? ==> r.0.value == storage.pinJson(metadata).value
    ensures r.0.Fail? ==> r.0.error.Error? && PinJsonFailurePrefix <= r.0.error.message
  {
    match storage.pinJson(metadata)
    case Ok(cid) => (Ok(cid), [PinJson(metadata)])
    case Fail(e) => (Fail(Error(PinJsonFailurePrefix + MessageOr(e, UnknownError))), [PinJson(metadata)])
  }

  /** The `uploadedFiles` field of the result: name and identifier copied,
      size always 0. */
  function Summaries(documents: seq<UploadedFileMetadata>): (files: seq<UploadedFile>)
    ensures |files| == |documents|
    ensures forall i :: 0 <= i < |documents| ==>
      files[i] == UploadedFile(documents[i].name, documents[i].cid, 0)
  {
    seq(|documents|, i requires 0 <= i < |documents| => UploadedFile(documents[i].name, documents[i].cid, 0))
  }

  /** `uploadS3Files`. The timestamp of the manifest is a parameter. Every
      failure is rethrown with the prefix "Pinata upload failed: "; a failed
      file is reported by its URL alone. */
  function UploadS3Files(dto: UploadRequest, storage: Storage, timestamp: string): (r: (Outcome<UploadResult>, seq<Call>))
    ensures r.0.Fail? ==> r.0.error.Error? && PinataFailurePrefix <= r.0.error.message
    ensures ValidateUrls(dto.fileUrls).Fail? ==> r.1 == []
    ensures r.0.Ok? ==> r.0.value.success && ValidateUrls(dto.fileUrls).Ok?
  {
    match ValidateUrls(dto.fileUrls)
    case Fail(e) => (Fail(Error(PinataFailurePrefix + MessageOr(e, UnknownError))), [])
    case Ok(uniqueUrls) =>
      var uploads := UploadEach(uniqueUrls, storage);
      match FirstFailure(uploads.0)
      case Some(k) =>
        (Fail(Error(PinataFailurePrefix + S3FailurePrefix + uniqueUrls[k])), uploads.1)
      case None =>
        var uploadedFiles := Values(uploads.0);
        var metadata := BuildManifest(dto, uploadedFiles, timestamp);
        var pinned := UploadMetadata(metadata, storage);
        match pinned.0
        case Fail(e) => (Fail(Error(PinataFailurePrefix + MessageOr(e, UnknownError))), uploads.1 + pinned.1)
        case Ok(metadataCID) =>
          (Ok(UploadResult(
             true,
             "Successfully uploaded " + NatToDecimal(|uploadedFiles|) + " files to Pinata/IPFS",
             metadataCID,
             Summaries(uploadedFiles))),
           uploads.1 + pinned.1)
  }

  // ---------------------------------------------------------------------------
  // Properties of `uploadS3Files`

  /** A missing or empty list is rejected before any remote call. */
  lemma EmptyBatchRejected(dto: UploadRequest, storage: Storage, timestamp: string)
    requires dto.fileUrls.None? || dto.fileUrls.value == []
    ensures UploadS3Files(dto, storage, timestamp)
         == (Fail(Error(PinataFailurePrefix + NoUrlsMessage)), [])
  {
  }

  /** The count limit applies to the list as given, before duplicates are
      removed, and is checked before any remote call. */
  lemma CountCheckedBeforeDedup(dto: UploadRequest, storage: Storage, timestamp: string)
    requires dto.fileUrls.Some? && |dto.fileUrls.value| > MaxUrlCount
    ensures UploadS3Files(dto, storage, timestamp)
         == (Fail(Error(PinataFailurePrefix + TooManyUrlsMessage(|dto.fileUrls.value|))), [])
  {
  }

  /** Twenty-one copies of one acceptable URL are one document after
      deduplication, yet the batch is still refused for its length. */
  lemma RepeatedUrlStillCounted(storage: Storage, timestamp: string)
    ensures var urls := seq(21, _ => "https://bucket/deed.pdf");
      && |Dedup(urls)| == 1
      && UploadS3Files(UploadRequest("p", Some(urls), None, None, None), storage, timestamp).0.Fail?
  {
    var urls := seq(21, _ => "https://bucket/deed.pdf");
    SingletonDedup(urls, "https://bucket/deed.pdf");
    CountCheckedBeforeDedup(UploadRequest("p", Some(urls), None, None, None), storage, timestamp);
  }

  /** Deduplicating copies of one value leaves that value once. */
  lemma {:induction false} SingletonDedup(urls: seq<string>, u: string)
    requires |urls| > 0
    requires forall i :: 0 <= i < |urls| ==> urls[i] == u
    ensures Dedup(urls) == [u]
  {
    if |urls| > 1 {
      SingletonDedup(urls[..|urls| - 1], u);
    } else {
      assert urls[..0] == [];
    }
  }

  /** A batch with a URL whose extension is not on the list is refused
      before any download, naming every such URL once (in the order of the
      request, by `InvalidUrlsInRequestOrder`). */
  lemma InvalidTypesRejectedBeforeDownload(dto: UploadRequest, storage: Storage, timestamp: string)
    requires dto.fileUrls.Some? && 0 < |dto.fileUrls.value| <= MaxUrlCount
    requires exists u :: u in dto.fileUrls.value && !IsAllowedUrl(u)
    ensures var invalid := InvalidFiles(Dedup(dto.fileUrls.value));
      && invalid != []
      && NoDuplicates(invalid)
      && UploadS3Files(dto, storage, timestamp)
         == (Fail(Error(PinataFailurePrefix + InvalidTypesMessage(invalid))), [])
  {
    InvalidUrlsListed(dto.fileUrls.value);
  }

  /** Every rejected URL is listed, once. */
  lemma InvalidUrlsListed(urls: seq<string>)
    requires exists u :: u in urls && !IsAllowedUrl(u)
    ensures InvalidFiles(Dedup(urls)) != []
    ensures NoDuplicates(InvalidFiles(Dedup(urls)))
  {
    var u :| u in urls && !IsAllowedUrl(u);
    assert u in InvalidFiles(Dedup(urls));
    InvalidFilesKeepsDistinct(Dedup(urls));
  }

  /** Filtering a list without repetitions gives a list without repetitions. */
  lemma {:induction false} InvalidFilesKeepsDistinct(urls: seq<string>)
    requires NoDuplicates(urls)
    ensures NoDuplicates(InvalidFiles(urls))
  {
    if |urls| > 0 {
      assert urls == [urls[0]] + urls[1..];
      NoDuplicatesCons(urls[0], urls[1..]);
      InvalidFilesKeepsDistinct(urls[1..]);
      NoDuplicatesCons(urls[0], InvalidFiles(urls[1..]));
    }
  }

  /** The first position of `x` in a list with a head. */
  lemma FirstIndexCons<T>(h: T, t: seq<T>, x: T)
    requires x in [h] + t
    ensures FirstIndex([h] + t, x) == if x == h then 0 else 1 + FirstIndex(t, x)
  {
    assert ([h] + t)[0] == h;
    assert ([h] + t)[1..] == t;
  }

  /** Putting a new head in front of a list moves every element of the
      tail one place on, so an order among them is kept. */
  lemma OrderShifts(h: string, t: seq<string>, rest: seq<string>)
    requires forall x :: x in rest ==> x in t && x != h
    requires forall i, j :: 0 <= i < j < |rest| ==> FirstIndex(t, rest[i]) < FirstIndex(t, rest[j])
    ensures forall i, j :: 0 <= i < j < |rest| ==> FirstIndex([h] + t, rest[i]) < FirstIndex([h] + t, rest[j])
  {
    forall i, j | 0 <= i < j < |rest|
      ensures FirstIndex([h] + t, rest[i]) < FirstIndex([h] + t, rest[j])
    {
      FirstIndexCons(h, t, rest[i]);
      FirstIndexCons(h, t, rest[j]);
    }
  }

  /** The new head comes before every element of the tail. */
  lemma HeadComesFirst(h: string, t: seq<string>, rest: seq<string>)
    requires forall x :: x in rest ==> x in t && x != h
    ensures forall j :: 0 <= j < |rest| ==> FirstIndex([h] + t, h) < FirstIndex([h] + t, rest[j])
  {
    FirstIndexCons(h, t, h);
    forall j | 0 <= j < |rest|
      ensures FirstIndex([h] + t, h) < FirstIndex([h] + t, rest[j])
    {
      FirstIndexCons(h, t, rest[j]);
    }
  }

  /** An ordered tail stays ordered behind a new head. */
  lemma OrderUnderNewHead(h: string, t: seq<string>, rest: seq<string>)
    requires forall x :: x in rest ==> x in t && x != h
    requires forall i, j :: 0 <= i < j < |rest| ==> FirstIndex(t, rest[i]) < FirstIndex(t, rest[j])
    ensures forall i, j :: 0 <= i < j < |[h] + rest| ==>
      FirstIndex([h] + t, ([h] + rest)[i]) < FirstIndex([h] + t, ([h] + rest)[j])
  {
    OrderShifts(h, t, rest);
    HeadComesFirst(h, t, rest);
    forall i, j | 0 <= i < j < |[h] + rest|
      ensures FirstIndex([h] + t, ([h] + rest)[i]) < FirstIndex([h] + t, ([h] + rest)[j])
    {
      assert ([h] + rest)[j] == rest[j - 1];
      if i > 0 {
        assert ([h] + rest)[i] == rest[i - 1];
      }
    }
  }

  /** `filter` keeps the order of a list without repetitions. */
  lemma {:induction false} InvalidFilesKeepOrder(urls: seq<string>)
    requires NoDuplicates(urls)
    ensures forall i, j :: 0 <= i < j < |InvalidFiles(urls)| ==>
      FirstIndex(urls, InvalidFiles(urls)[i]) < FirstIndex(urls, InvalidFiles(urls)[j])
  {
    if |urls| > 0 {
      var h, t := urls[0], urls[1..];
      assert urls == [h] + t;
      NoDuplicatesCons(h, t);
      InvalidFilesKeepOrder(t);
      if IsAllowedUrl(h) {
        OrderShifts(h, t, InvalidFiles(t));
      } else {
        OrderUnderNewHead(h, t, InvalidFiles(t));
      }
    }
  }

  /** The invalid URLs of the message are listed in the order in which they
      first occur in the request. */
  lemma InvalidUrlsInRequestOrder(urls: seq<string>)
    ensures forall i, j :: 0 <= i < j < |InvalidFiles(Dedup(urls))| ==>
      FirstIndex(urls, InvalidFiles(Dedup(urls))[i]) < FirstIndex(urls, InvalidFiles(Dedup(urls))[j])
  {
    var unique := Dedup(urls);
    var invalid := InvalidFiles(unique);
    InvalidFilesKeepOrder(unique);
    DedupKeepsFirstOccurrenceOrder(urls);
    forall i, j | 0 <= i < j < |invalid|
      ensures FirstIndex(urls, invalid[i]) < FirstIndex(urls, invalid[j])
    {
      assert invalid[i] in invalid && invalid[j] in invalid;
      var p, q := FirstIndex(unique, invalid[i]), FirstIndex(unique, invalid[j]);
      assert p < q;
      assert unique[p] == invalid[i] && unique[q] == invalid[j];
      assert FirstIndex(urls, unique[p]) < FirstIndex(urls, unique[q]);
    }
  }

  /** A list with a head has no repetitions when its tail has none and
      does not hold the head. */
  lemma NoDuplicatesCons(x: string, s: seq<string>)
    ensures NoDuplicates([x] + s) <==> x !in s && NoDuplicates(s)
  {
    var t := [x] + s;
    assert forall i :: 0 <= i < |s| ==> t[i + 1] == s[i];
    if NoDuplicates(t) {
      assert forall i :: 0 <= i < |s| ==> s[i] != t[0] by {
        forall i | 0 <= i < |s| ensures s[i] != t[0] {
          assert t[i + 1] == s[i];
        }
      }
    }
    if x !in s && NoDuplicates(s) {
      forall i, j | 0 <= i < j < |t| ensures t[i] != t[j] {
        assert t[j] == s[j - 1];
        if i > 0 {
          assert t[i] == s[i - 1];
        }
      }
    }
  }

  /** When every URL passes validation, exactly the distinct URLs are
      downloaded, once each, in the order of their first occurrence. */
  lemma DownloadsAreTheDistinctUrls(dto: UploadRequest, storage: Storage, timestamp: string)
    requires ValidateUrls(dto.fileUrls).Ok?
    ensures DownloadedUrls(UploadS3Files(dto, storage, timestamp).1) == Dedup(dto.fileUrls.value)
  {
    var unique := Dedup(dto.fileUrls.value);
    var uploads := UploadEach(unique, storage);
    DownloadsOfEach(unique, storage);
    if FirstFailure(uploads.0).None? {
      var metadata := BuildManifest(dto, Values(uploads.0), timestamp);
      DownloadedUrlsOfConcat(uploads.1, [PinJson(metadata)]);
      assert DownloadedUrls([PinJson(metadata)]) == [];
    }
  }

  /** The files a batch pins are pinned by its per-file uploads. */
  lemma BatchPinsComeFromUploads(dto: UploadRequest, storage: Storage, timestamp: string)
    requires ValidateUrls(dto.fileUrls).Ok?
    ensures forall c :: c in UploadS3Files(dto, storage, timestamp).1 && c.PinFile? ==>
      c in UploadEach(Dedup(dto.fileUrls.value), storage).1
  {
  }

  /** Per-file uploads of URLs that all pass the allow-list pin only files
      within the size ceiling whose extension is on the list. */
  lemma EachPinsAllowedFiles(urls: seq<string>, storage: Storage)
    requires forall u :: u in urls ==> IsAllowedUrl(u)
    ensures forall c :: c in UploadEach(urls, storage).1 && c.PinFile? ==>
      |c.content| <= MaxFileSize && ExtensionOf(c.name) in AllowedExtensions
  {
    CallsOfEach(urls, storage);
    forall c | c in UploadEach(urls, storage).1 && c.PinFile?
      ensures |c.content| <= MaxFileSize && ExtensionOf(c.name) in AllowedExtensions
    {
      var u :| u in urls && c in UploadFileFromS3Url(u, storage).1;
      PinnedFileIsAccepted(u, storage);
    }
  }

  /** Every file `uploadS3Files` pins fits the size ceiling and carries an
      extension of the batch allow-list, so a presentation file, which the
      single-file path would accept, is never pinned by a batch. */
  lemma PinnedFilesAreAllowed(dto: UploadRequest, storage: Storage, timestamp: string)
    ensures forall c :: c in UploadS3Files(dto, storage, timestamp).1 && c.PinFile? ==>
      && |c.content| <= MaxFileSize
      && ExtensionOf(c.name) in AllowedExtensions
      && ExtensionOf(c.name) != "ppt" && ExtensionOf(c.name) != "pptx"
  {
    PresentationsNotAllowed();
    if ValidateUrls(dto.fileUrls).Ok? {
      BatchPinsComeFromUploads(dto, storage, timestamp);
      EachPinsAllowedFiles(Dedup(dto.fileUrls.value), storage);
    }
  }

  /** The batch allow-list is the single-file list without the two
      presentation formats. */
  lemma PresentationsNotAllowed()
    ensures "ppt" !in AllowedExtensions && "pptx" !in AllowedExtensions
    ensures MimeTypeOf("ppt").Some? && MimeTypeOf("pptx").Some?
  {
  }

  /** Every extension of the batch allow-list has a MIME type. */
  lemma AllowedExtensionsHaveMimeTypes()
    ensures forall e :: e in AllowedExtensions ==> MimeTypeOf(e).Some?
  {
    forall i | 0 <= i < |AllowedExtensions| ensures MimeTypeOf(AllowedExtensions[i]).Some? {
    }
  }

  /** When a file fails, the batch fails naming the first failing URL (in
      the order of the distinct URLs) and the manifest is never pinned. */
  lemma FailedFileReportedByUrl(dto: UploadRequest, storage: Storage, timestamp: string, k: nat)
    requires ValidateUrls(dto.fileUrls).Ok?
    requires var unique := Dedup(dto.fileUrls.value);
      && k < |unique|
      && UploadFileFromS3Url(unique[k], storage).0.Fail?
      && forall j :: 0 <= j < k ==> UploadFileFromS3Url(unique[j], storage).0.Ok?
    ensures var r := UploadS3Files(dto, storage, timestamp);
      && r.0 == Fail(Error(PinataFailurePrefix + S3FailurePrefix + Dedup(dto.fileUrls.value)[k]))
      && forall c :: c in r.1 ==> !c.PinJson?
  {
    var unique := Dedup(dto.fileUrls.value);
    var uploads := UploadEach(unique, storage);
    FirstFailureAt(uploads.0, k);
    CallsOfEach(unique, storage);
  }

  /** Every manifest a batch pins is built from the request: its
      identifier, and its owner, type and name with their defaults. */
  lemma ManifestCallsCarryRequest(dto: UploadRequest, storage: Storage, timestamp: string)
    ensures forall c :: c in UploadS3Files(dto, storage, timestamp).1 && c.PinJson? ==>
      && c.metadata.propertyId == dto.propertyId
      && c.metadata.propertyOwnerName == OrDefault(dto.propertyOwnerName, "Unknown Owner")
      && c.metadata.propertyType == OrDefault(dto.propertyType, "")
      && c.metadata.propertyName == OrDefault(dto.propertyName, "")
  {
    if ValidateUrls(dto.fileUrls).Ok? {
      var unique := Dedup(dto.fileUrls.value);
      CallsOfEach(unique, storage);
      assert forall c :: c in UploadEach(unique, storage).1 ==> !c.PinJson?;
    }
  }

  /** A successful batch: one manifest pinned last, built from the request
      with its defaults and listing the documents in the order of the
      distinct URLs, and a summary per document with size 0. */
  lemma SuccessfulBatch(dto: UploadRequest, storage: Storage, timestamp: string)
    requires UploadS3Files(dto, storage, timestamp).0.Ok?
    ensures dto.fileUrls.Some?
    ensures var r := UploadS3Files(dto, storage, timestamp);
      var unique := Dedup(dto.fileUrls.value);
      var files := r.0.value.uploadedFiles;
      && |r.1| > 0 && r.1[|r.1| - 1].PinJson?
      && var manifest := r.1[|r.1| - 1].metadata;
      && manifest.propertyId == dto.propertyId
      && manifest.propertyOwnerName == OrDefault(dto.propertyOwnerName, "Unknown Owner")
      && manifest.propertyType == OrDefault(dto.propertyType, "")
      && manifest.propertyName == OrDefault(dto.propertyName, "")
      && manifest.timestamp == timestamp
      && |manifest.documents| == |unique| == |files|
      && r.0.value.metadataCID == storage.pinJson(manifest).value
      && r.0.value.message == "Successfully uploaded " + NatToDecimal(|unique|) + " files to Pinata/IPFS"
      && forall i :: 0 <= i < |unique| ==>
        && manifest.documents[i] == UploadFileFromS3Url(unique[i], storage).0.value
        && manifest.documents[i].name == FileNameOf(unique[i])
        && files[i] == UploadedFile(manifest.documents[i].name, manifest.documents[i].cid, 0)
  {
  }

  /** The converse of `SuccessfulBatch`: the batch succeeds exactly when its
      list validates, every distinct URL uploads, and the manifest of the
      uploaded documents pins. */
  lemma BatchSuccessCondition(dto: UploadRequest, storage: Storage, timestamp: string)
    ensures UploadS3Files(dto, storage, timestamp).0.Ok? <==>
      && ValidateUrls(dto.fileUrls).Ok?
      && AllUploaded(Dedup(dto.fileUrls.value), storage)
      && storage.pinJson(BuildManifest(dto, Values(UploadEach(Dedup(dto.fileUrls.value), storage).0), timestamp)).Ok?
  {
    if ValidateUrls(dto.fileUrls).Ok? {
      var unique := Dedup(dto.fileUrls.value);
      var uploads := UploadEach(unique, storage).0;
      if AllUploaded(unique, storage) {
        assert FirstFailure(uploads).None?;
      } else {
        var k :| 0 <= k < |unique| && UploadFileFromS3Url(unique[k], storage).0.Fail?;
        assert uploads[k].Fail?;
      }
    }
  }

  /** Duplicates in the request make no difference: a request within the
      count limit behaves as the same request listing each URL once. */
  lemma DuplicatesAreIrrelevant(dto: UploadRequest, storage: Storage, timestamp: string)
    requires dto.fileUrls.Some? && |dto.fileUrls.value| <= MaxUrlCount
    ensures UploadS3Files(dto, storage, timestamp)
         == UploadS3Files(dto.(fileUrls := Some(Dedup(dto.fileUrls.value))), storage, timestamp)
  {
    ValidationIgnoresDuplicates(dto.fileUrls.value);
  }

  /** Within the count limit, validation treats a list and its
      deduplication alike. */
  lemma ValidationIgnoresDuplicates(urls: seq<string>)
    requires |urls| <= MaxUrlCount
    ensures ValidateUrls(Some(urls)) == ValidateUrls(Some(Dedup(urls)))
  {
    var unique := Dedup(urls);
    DedupIdempotent(urls);
    if |urls| == 0 {
      assert unique == [];
    } else {
      assert urls[0] in unique;
      ValidationByDistinctUrls(urls);
      ValidationByDistinctUrls(unique);
    }
  }

  /** Deduplicating twice is deduplicating once. */
  lemma DedupIdempotent(urls: seq<string>)
    ensures Dedup(Dedup(urls)) == Dedup(urls)
  {
    DedupIdentityIffNoDuplicates(Dedup(urls));
  }

  /** Within the count limit, validation depends on the distinct URLs
      alone: it accepts them when the filter rejects none, and otherwise
      reports the rejected ones. */
  lemma ValidationByDistinctUrls(urls: seq<string>)
    requires 0 < |urls| <= MaxUrlCount
    ensures ValidateUrls(Some(urls)) ==
      if InvalidFiles(Dedup(urls)) == [] then Ok(Dedup(urls))
      else Fail(Error(InvalidTypesMessage(InvalidFiles(Dedup(urls)))))
  {
  }

  /** The file name of a URL is its last path segment, without the query. */
  lemma FileNameOfPath(dir: string, name: string, query: string)
    requires '/' !in name && '?' !in name && '/' !in query
    ensures FileNameOf(dir + "/" + name + "?" + query) == name
    ensures FileNameOf(dir + "/" + name) == name
  {
    SegmentAfterLastSlash(dir, name + "?" + query);
    SegmentAfterLastSlash(dir, name);
    var withQuery := name + "?" + query;
    assert dir + "/" + name + "?" + query == dir + "/" + withQuery;
    assert IndexOrEnd(withQuery, '?') == |name| by {
      assert withQuery[|name|] == '?';
      assert forall j :: 0 <= j < |name| ==> withQuery[j] == name[j];
    }
    assert withQuery[..|name|] == name;
    assert IndexOrEnd(name, '?') == |name| by {
      assert forall j :: 0 <= j < |name| ==> name[j] in name;
    }
    assert name[..IndexOrEnd(name, '?')] == name;
  }

  lemma SegmentAfterLastSlash(dir: string, segment: string)
    requires '/' !in segment
    ensures var url := dir + "/" + segment;
      FileNameOf(url) == segment[..IndexOrEnd(segment, '?')]
  {
    FileNameOfShape(dir + "/" + segment);
    LastIndexBeforeTail(dir, '/', segment);
  }

  /** The extension of a name with a dot is the lower-cased text after the
      last dot. */
  lemma ExtensionOfDotted(stem: string, extension: string)
    requires '.' !in extension
    ensures ExtensionOf(stem + "." + extension) == ToLower(extension)
  {
    ExtensionOfShape(stem + "." + extension);
    LastIndexBeforeTail(stem, '.', extension);
  }

  /** The allow-list test reads the extension after the last dot of the
      file name, ignoring case and whatever follows the first question mark,
      so a query string without a `/` cannot change the verdict (a `/` in the
      query would move the last segment of the path). */
  lemma AllowedByExtensionBeforeQuery(dir: string, stem: string, extension: string, query: string)
    requires '/' !in stem && '?' !in stem
    requires '/' !in extension && '?' !in extension && '.' !in extension
    requires '/' !in query
    ensures IsAllowedUrl(dir + "/" + (stem + "." + extension) + "?" + query)
        <==> ToLower(extension) in AllowedExtensions
    ensures IsAllowedUrl(dir + "/" + (stem + "." + extension))
        <==> ToLower(extension) in AllowedExtensions
  {
    var name := stem + "." + extension;
    assert '/' !in name && '?' !in name by {
      assert forall i :: 0 <= i < |name| ==> name[i] in stem || name[i] == '.' || name[i] in extension by {
        forall i | 0 <= i < |name| ensures name[i] in stem || name[i] == '.' || name[i] in extension {
          if i < |stem| {
            assert name[i] == stem[i];
          } else if i > |stem| {
            assert name[i] == extension[i - |stem| - 1];
          }
        }
      }
    }
    FileNameOfPath(dir, name, query);
    ExtensionOfDotted(stem, extension);
  }

  /** A file name without a dot is its own extension: "https://host/pdf" is
      accepted as a PDF document. */
  lemma AllowedWithoutDot(dir: string, name: string)
    requires '/' !in name && '?' !in name && '.' !in name
    ensures IsAllowedUrl(dir + "/" + name) <==> ToLower(name) in AllowedExtensions
  {
    FileNameOfPath(dir, name, "");
    ExtensionOfShape(name);
  }
}
