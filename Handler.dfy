/**
 * The redirect handler: from the request's `rawPath` to either a response
 * (302 redirect or 410 expired) or the exception the handler throws.
 *
 * The object store's `getObject`, the JSON deserializer and the clock are
 * not part of this model; they enter as the parameters `store`, `readValue`
 * and `nowMillis` of `HandleRequest`.
 */
module Handler {
  import opened Wrappers
  import opened UrlData
  import opened ShortCode

  /** The fixed bucket that holds one `<shortCode>.json` object per link. */
  const Bucket: string := "raul-url-shortener-storage"
  const KeySuffix: string := ".json"

  const MissingCodeMessage: string := "Invalid input: 'shortUrlCode' is required."
  const FetchErrorPrefix: string := "Error fetching URL data from S3: "
  const DeserializeErrorPrefix: string := "Error deserializing URL data: "
  const ExpiredBody: string := "This URL has expired."
  const LocationHeader: string := "Location"

  /** One octet of the stored object's content. */
  newtype byte = x: int | 0 <= x < 256

  /** The content of a fetched object. */
  type Blob = seq<byte>

  /** The bucket and key of an object-store read. */
  datatype GetObjectRequest = GetObjectRequest(bucket: string, key: string)

  /** The object store: the object's content, or the message of the exception the read throws. */
  type ObjectStore = GetObjectRequest -> Result<Blob, string>

  /**
   * The deserializer: the record, `None` when the stored JSON is the literal
   * `null`, or the message of the exception parsing throws.
   */
  type Deserializer = Blob -> Result<Option<OriginalUrlData>, string>

  /**
   * The response map: a status code, the optional "headers" entry and the
   * optional "body" entry.
   */
  datatype Response = Response(statusCode: int, headers: Option<map<string, string>>, body: Option<string>)

  /** What the handler throws instead of returning a response. */
  datatype HandlerError =
    | MissingRawPath              // no "rawPath" in the input: dereferencing it throws
    | InvalidInput                // the short code is empty
    | FetchFailed(cause: string)  // the store read threw; `cause` is its message
    | DeserializeFailed(cause: string) // parsing threw; `cause` is its message
    | NullRecord                  // parsing gave null: reading its expiration time throws
  {
    /** The message of the thrown exception, when the handler composes it. */
    function Message(): (m: Option<string>)
      ensures m.None? <==> this.MissingRawPath? || this.NullRecord?
    {
      match this
      case MissingRawPath => None
      case NullRecord => None
      case InvalidInput => Some(MissingCodeMessage)
      case FetchFailed(cause) => Some(FetchErrorPrefix + cause)
      case DeserializeFailed(cause) => Some(DeserializeErrorPrefix + cause)
    }
  }

  /** The object key of a short code. */
  function ObjectKey(code: string): (key: string)
    ensures |key| == |code| + |KeySuffix|
    ensures key[..|code|] == code && key[|code|..] == KeySuffix
  {
    code + KeySuffix
  }

  /** The store read for a short code: the fixed bucket and the code's key. */
  function ObjectRequest(code: string): (req: GetObjectRequest)
    ensures req.bucket == Bucket
    ensures req.key == ObjectKey(code)
  {
    GetObjectRequest(Bucket, ObjectKey(code))
  }

  /** Milliseconds to seconds with Java's `long` division, which truncates toward zero. */
  function CurrentTimeInSeconds(millis: Long): (seconds: Long)
    ensures millis >= 0 ==> 0 <= millis as int - 1000 * seconds as int < 1000
    ensures millis < 0 ==> -1000 < millis as int - 1000 * seconds as int <= 0
  {
    var m := millis as int;
    (if m >= 0 then m / 1000 else -((-m) / 1000)) as Long
  }

  /** A record has expired from the second after its expiration second on. */
  predicate IsExpired(data: OriginalUrlData, now: Long): (expired: bool)
    ensures expired <==> now as int >= data.expirationTime as int + 1
  {
    data.expirationTime < now
  }

  /** The response for a fetched record at time `now` (in seconds). */
  function BuildResponse(data: OriginalUrlData, now: Long): (r: Response)
    ensures r.statusCode == 410 || r.statusCode == 302
    ensures r.statusCode == 410 <==> data.expirationTime < now
    ensures r.statusCode == 410 ==> r.headers.None? && r.body == Some(ExpiredBody)
    ensures r.statusCode == 302 ==> r.body.None? && r.headers == Some(map[LocationHeader := data.originalUrl])
  {
    if IsExpired(data, now) then
      Response(410, None, Some(ExpiredBody))
    else
      Response(302, Some(map[LocationHeader := data.originalUrl]), None)
  }

  /** The whole handler. `rawPath` is `None` when the input has no "rawPath" entry. */
  function HandleRequest(rawPath: Option<string>, store: ObjectStore, readValue: Deserializer, nowMillis: Long)
    : (r: Result<Response, HandlerError>)
    ensures r == Failure(MissingRawPath) <==> rawPath.None?
    ensures r == Failure(InvalidInput) <==> rawPath.Some? && StripSlashes(rawPath.value) == []
    ensures r.Success? ==> r.value.statusCode == 410 || r.value.statusCode == 302
  {
    match rawPath
    case None => Failure(MissingRawPath)
    case Some(path) =>
      var code := StripSlashes(path);
      if code == [] then Failure(InvalidInput)
      else
        match store(ObjectRequest(code))
        case Failure(cause) => Failure(FetchFailed(cause))
        case Success(blob) =>
          match readValue(blob)
          case Failure(cause) => Failure(DeserializeFailed(cause))
          case Success(None) => Failure(NullRecord)
          case Success(Some(data)) => Success(BuildResponse(data, CurrentTimeInSeconds(nowMillis)))
  }

  // ---------------------------------------------------------------------
  // Properties of the handler
  // ---------------------------------------------------------------------

  /** A missing `rawPath` fails before anything else and is not the "required" error. */
  lemma MissingPathFails(store: ObjectStore, readValue: Deserializer, nowMillis: Long)
    ensures HandleRequest(None, store, readValue, nowMillis) == Failure(MissingRawPath)
    ensures HandleRequest(None, store, readValue, nowMillis) != Failure(InvalidInput)
  {
  }

  /** The "required" error is raised exactly for empty and slash-only paths. */
  lemma {:induction false} InvalidInputIff(path: string, store: ObjectStore, readValue: Deserializer, nowMillis: Long)
    ensures HandleRequest(Some(path), store, readValue, nowMillis) == Failure(InvalidInput)
        <==> forall i :: 0 <= i < |path| ==> path[i] == Slash
    ensures InvalidInput.Message() == Some("Invalid input: 'shortUrlCode' is required.")
  {
    StripSlashesEmpty(path);
  }

  /** Without a short code the store and the deserializer are never consulted. */
  lemma NoLookupWithoutCode(rawPath: Option<string>, store1: ObjectStore, store2: ObjectStore,
                            read1: Deserializer, read2: Deserializer, millis1: Long, millis2: Long)
    requires rawPath.None? || StripSlashes(rawPath.value) == []
    ensures HandleRequest(rawPath, store1, read1, millis1) == HandleRequest(rawPath, store2, read2, millis2)
    ensures HandleRequest(rawPath, store1, read1, millis1).Failure?
  {
  }

  /** With a short code, the only object read is the code's key in the fixed bucket. */
  lemma LookupOnlyByKey(path: string, store1: ObjectStore, store2: ObjectStore, readValue: Deserializer, nowMillis: Long)
    requires StripSlashes(path) != []
    requires store1(GetObjectRequest(Bucket, StripSlashes(path) + ".json"))
          == store2(GetObjectRequest(Bucket, StripSlashes(path) + ".json"))
    ensures HandleRequest(Some(path), store1, readValue, nowMillis) == HandleRequest(Some(path), store2, readValue, nowMillis)
  {
  }

  /** Distinct short codes read distinct keys, and a key never holds a slash. */
  lemma ObjectKeyInjective(path1: string, path2: string)
    ensures ObjectKey(StripSlashes(path1)) == ObjectKey(StripSlashes(path2)) ==> StripSlashes(path1) == StripSlashes(path2)
    ensures Slash !in ObjectKey(StripSlashes(path1))
  {
  }

  /**
   * Two example reads: a plain code and a multi-segment path. The inputs are
   * parameters pinned by `requires`, because string literals as arguments make
   * the verifier unfold `StripSlashes` past its resource limit.
   */
  lemma ObjectKeyExamples(code: string, path: string)
    requires code == "abc123" && path == "/foo/bar"
    ensures ObjectRequest(code) == GetObjectRequest("raul-url-shortener-storage", "abc123.json")
    ensures ObjectRequest(StripSlashes(path)) == GetObjectRequest("raul-url-shortener-storage", "foobar.json")
  {
    MultiSegmentExample(path);
  }

  /** A failing read is rethrown with the fetch prefix and the original message; nothing is parsed. */
  lemma FetchFailureWrapped(path: string, store: ObjectStore, readValue: Deserializer, nowMillis: Long, cause: string)
    requires StripSlashes(path) != []
    requires store(ObjectRequest(StripSlashes(path))) == Failure(cause)
    ensures HandleRequest(Some(path), store, readValue, nowMillis) == Failure(FetchFailed(cause))
    ensures FetchFailed(cause).Message() == Some("Error fetching URL data from S3: " + cause)
  {
  }

  /** A failing parse is rethrown with the deserialization prefix and the original message. */
  lemma DeserializeFailureWrapped(path: string, store: ObjectStore, readValue: Deserializer, nowMillis: Long,
                                  blob: Blob, cause: string)
    requires StripSlashes(path) != []
    requires store(ObjectRequest(StripSlashes(path))) == Success(blob)
    requires readValue(blob) == Failure(cause)
    ensures HandleRequest(Some(path), store, readValue, nowMillis) == Failure(DeserializeFailed(cause))
    ensures DeserializeFailed(cause).Message() == Some("Error deserializing URL data: " + cause)
  {
  }

  /**
   * A parse that yields null is not wrapped: the dereference of the record
   * throws outside both handlers, with no composed message.
   */
  lemma NullRecordUnwrapped(path: string, store: ObjectStore, readValue: Deserializer, nowMillis: Long, blob: Blob)
    requires StripSlashes(path) != []
    requires store(ObjectRequest(StripSlashes(path))) == Success(blob)
    requires readValue(blob) == Success(None)
    ensures HandleRequest(Some(path), store, readValue, nowMillis) == Failure(NullRecord)
    ensures NullRecord.Message().None?
  {
  }

  /**
   * A composed message tells the failing stage apart and gives back the
   * original message. Only the two unwrapped dereference failures have none.
   */
  lemma {:induction false} WrappedMessagesDistinct(e1: HandlerError, e2: HandlerError)
    ensures e1.Message().Some? && e1.Message() == e2.Message() ==> e1 == e2
  {
    match e1
    case FetchFailed(c1) => {
      match e2
      case FetchFailed(c2) =>
        assert c1 == (FetchErrorPrefix + c1)[|FetchErrorPrefix|..];
        assert c2 == (FetchErrorPrefix + c2)[|FetchErrorPrefix|..];
      case DeserializeFailed(c2) =>
        assert (FetchErrorPrefix + c1)[6] == 'f' && (DeserializeErrorPrefix + c2)[6] == 'd';
      case InvalidInput =>
        assert (FetchErrorPrefix + c1)[0] == 'E' && MissingCodeMessage[0] == 'I';
      case MissingRawPath =>
      case NullRecord =>
    }
    case DeserializeFailed(c1) => {
      match e2
      case DeserializeFailed(c2) =>
        assert c1 == (DeserializeErrorPrefix + c1)[|DeserializeErrorPrefix|..];
        assert c2 == (DeserializeErrorPrefix + c2)[|DeserializeErrorPrefix|..];
      case FetchFailed(c2) =>
        assert (DeserializeErrorPrefix + c1)[6] == 'd' && (FetchErrorPrefix + c2)[6] == 'f';
      case InvalidInput =>
        assert (DeserializeErrorPrefix + c1)[0] == 'E' && MissingCodeMessage[0] == 'I';
      case MissingRawPath =>
      case NullRecord =>
    }
    case InvalidInput => {
      match e2
      case FetchFailed(c2) =>
        assert (FetchErrorPrefix + c2)[0] == 'E' && MissingCodeMessage[0] == 'I';
      case DeserializeFailed(c2) =>
        assert (DeserializeErrorPrefix + c2)[0] == 'E' && MissingCodeMessage[0] == 'I';
      case InvalidInput =>
      case MissingRawPath =>
      case NullRecord =>
    }
    case MissingRawPath =>
    case NullRecord =>
  }

  /** The handler gives a response exactly when the code is non-empty and both the read and the parse succeed. */
  lemma SucceedsIff(rawPath: Option<string>, store: ObjectStore, readValue: Deserializer, nowMillis: Long)
    ensures HandleRequest(rawPath, store, readValue, nowMillis).Success? <==>
      rawPath.Some? && StripSlashes(rawPath.value) != [] &&
      store(ObjectRequest(StripSlashes(rawPath.value))).Success? &&
      readValue(store(ObjectRequest(StripSlashes(rawPath.value))).value).Success? &&
      readValue(store(ObjectRequest(StripSlashes(rawPath.value))).value).value.Some?
  {
  }

  /**
   * Every response is a 410 or a 302, decided only by comparing the stored
   * expiration second with the current second; a 302 points at the stored URL.
   */
  lemma ResponseDecision(path: string, store: ObjectStore, readValue: Deserializer, nowMillis: Long,
                                            blob: Blob, data: OriginalUrlData)
    requires StripSlashes(path) != []
    requires store(ObjectRequest(StripSlashes(path))) == Success(blob)
    requires readValue(blob) == Success(Some(data))
    ensures HandleRequest(Some(path), store, readValue, nowMillis) == Success(BuildResponse(data, CurrentTimeInSeconds(nowMillis)))
    ensures var resp := HandleRequest(Some(path), store, readValue, nowMillis).value;
      && (resp.statusCode == 410 <==> data.expirationTime < CurrentTimeInSeconds(nowMillis))
      && (resp.statusCode == 410 ==> resp == Response(410, None, Some("This URL has expired.")))
      && (resp.statusCode != 410 ==> resp == Response(302, Some(map["Location" := data.originalUrl]), None))
  {
  }

  /** A record expiring in the current second still redirects. */
  lemma BoundaryNotExpired(data: OriginalUrlData)
    ensures BuildResponse(data, data.expirationTime).statusCode == 302
  {
  }

  /** Once expired a record stays expired, and a record that redirects redirected at every earlier time. */
  lemma ExpiryMonotone(data: OriginalUrlData, t1: Long, t2: Long)
    requires t1 <= t2
    ensures BuildResponse(data, t1).statusCode == 410 ==> BuildResponse(data, t2).statusCode == 410
    ensures BuildResponse(data, t2).statusCode == 302 ==> BuildResponse(data, t1).statusCode == 302
  {
  }

  /**
   * In milliseconds: a record keeps redirecting through the whole of its
   * expiration second, and is expired from the first millisecond after it.
   */
  lemma ExpiredInMillis(data: OriginalUrlData, nowMillis: Long)
    requires nowMillis >= 0
    ensures IsExpired(data, CurrentTimeInSeconds(nowMillis)) <==> (data.expirationTime as int + 1) * 1000 <= nowMillis as int
  {
  }

  /** A current time in milliseconds for the scenarios: from the second second of 1970 to 2030. */
  predicate PlausibleNow(nowMillis: Long)
  {
    1000 <= nowMillis as int <= 1_900_000_000_000
  }

  /** A path made of one slash and one segment reads that segment's key. */
  lemma SegmentLookup(path: string, segment: string)
    requires Slash !in segment && path == [Slash] + segment
    ensures StripSlashes(path) == segment
    ensures ObjectRequest(StripSlashes(path)) == GetObjectRequest(Bucket, segment + ".json")
  {
    LeadingSlashStripped(segment);
  }

  // The scenarios pin their path by `requires` rather than writing the literal
  // in the ensures, for the same resource reason as `ObjectKeyExamples`, and
  // write each key as the segment followed by ".json".

  /** A link to a sale that expires in 2033 redirects. */
  lemma RedirectScenario(path: string, store: ObjectStore, readValue: Deserializer, nowMillis: Long, blob: Blob)
    requires path == "/promo2024"
    requires PlausibleNow(nowMillis)
    requires store(GetObjectRequest("raul-url-shortener-storage", "promo2024" + ".json")) == Success(blob)
    requires readValue(blob) == Success(Some(OriginalUrlData("https://example.com/sale", 2_000_000_000)))
    ensures HandleRequest(Some(path), store, readValue, nowMillis)
        == Success(Response(302, Some(map["Location" := "https://example.com/sale"]), None))
  {
    SegmentLookup(path, "promo2024");
    var data := OriginalUrlData("https://example.com/sale", 2_000_000_000);
    ResponseDecision(path, store, readValue, nowMillis, blob, data);
    assert CurrentTimeInSeconds(nowMillis) < data.expirationTime;
  }

  /** A link that expired in 1970 answers 410. */
  lemma ExpiredScenario(path: string, store: ObjectStore, readValue: Deserializer, nowMillis: Long, blob: Blob)
    requires path == "/old"
    requires PlausibleNow(nowMillis)
    requires store(GetObjectRequest("raul-url-shortener-storage", "old" + ".json")) == Success(blob)
    requires readValue(blob) == Success(Some(OriginalUrlData("https://example.com", 0)))
    ensures HandleRequest(Some(path), store, readValue, nowMillis)
        == Success(Response(410, None, Some("This URL has expired.")))
  {
    SegmentLookup(path, "old");
    var data := OriginalUrlData("https://example.com", 0);
    ResponseDecision(path, store, readValue, nowMillis, blob, data);
    assert data.expirationTime < CurrentTimeInSeconds(nowMillis);
  }

  /** A key the store does not hold fails with the fetch error. */
  lemma MissingKeyScenario(path: string, store: ObjectStore, readValue: Deserializer, nowMillis: Long)
    requires path == "/missing"
    requires store(GetObjectRequest("raul-url-shortener-storage", "missing" + ".json")) == Failure("NoSuchKey")
    ensures HandleRequest(Some(path), store, readValue, nowMillis) == Failure(FetchFailed("NoSuchKey"))
  {
    SegmentLookup(path, "missing");
  }
}
