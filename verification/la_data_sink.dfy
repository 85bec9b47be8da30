/**
 * `laDataSink`: aggregate one queue's records, split the groups into
 * batches, and post each batch to the Log Analytics HTTP Data Collector API
 * with a shared-key signature. One timestamp serves the whole call; a failed
 * post is logged and the next batch is still sent.
 */
module LaDataSink {
  import opened Wrappers
  import opened Text
  import opened Messages
  import opened Configuration
  import opened Aggregation
  import opened Chunking
  import opened SharedKey

  /** A request header. */
  datatype Header = Header(name: string, value: string)

  /** The request `PostData` sends. */
  datatype PostRequest = PostRequest(url: string, headers: seq<Header>, contentType: string, body: string)

  /** How a post ended: the response body was read, or an exception was caught and logged at critical level. */
  datatype PostOutcome = Completed(response: string) | LoggedCritical(message: string)

  datatype PostAttempt = PostAttempt(request: PostRequest, outcome: PostOutcome)

  /**
   * The HTTP client: the response body, or `ex.ToString()` of the exception
   * the post throws (type, message and stack trace, as the log line shows it).
   */
  type Transport = PostRequest -> Result<string, string>

  /**
   * The collaborators whose bodies are not part of this model: Newtonsoft's
   * compact JSON of a batch, the `ChunkBy` extension, and the cryptography.
   */
  datatype Primitives = Primitives(
    toJson: seq<Summary> -> string,
    chunkBy: (seq<Summary>, int) -> seq<seq<Summary>>,
    crypto: Crypto)

  const PostErrorPrefix := "Error POSTing to Log Analytics: "

  /** A constructed sink: its settings and its logger. */
  datatype Sink<L> = Sink(config: LADataSinkSettings, logger: L)

  /** The constructor: the settings value is checked before the logger. */
  function Create<L>(config: Option<LADataSinkSettings>, logger: Option<L>): (r: Result<Sink<L>, string>)
    ensures r.Success? <==> config.Some? && logger.Some?
    ensures config.None? ==> r == Failure(ConfigIsNull)
    ensures config.Some? && logger.None? ==> r == Failure(LoggerIsNull)
    ensures r.Success? ==> r.value.config == config.value && r.value.logger == logger.value
  {
    if config.None? then Failure(ConfigIsNull)
    else if logger.None? then Failure(LoggerIsNull)
    else Success(Sink(config.value, logger.value))
  }

  /** The value of the first header called `name`. */
  function HeaderValue(headers: seq<Header>, name: string): Option<string>
  {
    if |headers| == 0 then None
    else if headers[0].name == name then Some(headers[0].value)
    else HeaderValue(headers[1..], name)
  }

  /** The headers `PostData` adds to the client, in order. */
  function RequestHeaders(settings: LADataSinkSettings, signature: string, date: string): seq<Header>
  {
    [ Header("Accept", ContentType),
      Header("Log-Type", settings.logName),
      Header("Authorization", signature),
      Header(DateHeaderName, date),
      Header("time-generated-field", settings.timeStampField) ]
  }

  /** Each of the five headers can be looked up by its name. */
  lemma RequestHeaderValues(settings: LADataSinkSettings, signature: string, date: string)
    ensures var h := RequestHeaders(settings, signature, date);
      && HeaderValue(h, "Accept") == Some(ContentType)
      && HeaderValue(h, "Log-Type") == Some(settings.logName)
      && HeaderValue(h, "Authorization") == Some(signature)
      && HeaderValue(h, DateHeaderName) == Some(date)
      && HeaderValue(h, "time-generated-field") == Some(settings.timeStampField)
  {
    var h := RequestHeaders(settings, signature, date);
    var tgf := "time-generated-field";
    assert HeaderValue(h[4..], tgf) == Some(settings.timeStampField);
    assert HeaderValue(h[3..], tgf) == HeaderValue(h[4..], tgf);
    assert HeaderValue(h[2..], tgf) == HeaderValue(h[3..], tgf);
    assert HeaderValue(h[1..], tgf) == HeaderValue(h[2..], tgf);
    assert HeaderValue(h[3..], DateHeaderName) == Some(date);
    assert HeaderValue(h[2..], DateHeaderName) == HeaderValue(h[3..], DateHeaderName);
    assert HeaderValue(h[1..], DateHeaderName) == HeaderValue(h[2..], DateHeaderName);
    assert HeaderValue(h[2..], "Authorization") == Some(signature);
    assert HeaderValue(h[1..], "Authorization") == HeaderValue(h[2..], "Authorization");
  }

  /**
   * `PostData`: build the request for the workspace's endpoint and send it;
   * whatever the send throws is caught and logged, never rethrown.
   */
  function PostData(settings: LADataSinkSettings, signature: string, date: string, json: string, transport: Transport)
    : (a: PostAttempt)
    ensures a.request.url == Url(settings.workspaceId)
    ensures a.request.body == json && a.request.contentType == ContentType
    ensures HeaderValue(a.request.headers, "Authorization") == Some(signature)
    ensures HeaderValue(a.request.headers, DateHeaderName) == Some(date)
    ensures HeaderValue(a.request.headers, "Log-Type") == Some(settings.logName)
    ensures HeaderValue(a.request.headers, "time-generated-field") == Some(settings.timeStampField)
    ensures HeaderValue(a.request.headers, "Accept") == Some(ContentType)
    ensures a.outcome.LoggedCritical? <==> transport(a.request).Failure?
    ensures a.outcome.LoggedCritical? ==> a.outcome.message == PostErrorPrefix + transport(a.request).error
  {
    RequestHeaderValues(settings, signature, date);
    var request := PostRequest(Url(settings.workspaceId), RequestHeaders(settings, signature, date), ContentType, json);
    match transport(request)
    case Success(body) => PostAttempt(request, Completed(body))
    case Failure(e) => PostAttempt(request, LoggedCritical(PostErrorPrefix + e))
  }

  /** The batches `SinkMessages` sends: the groups, chunked by the configured size. */
  function Batches(settings: LADataSinkSettings, envName: string, queueName: string,
                   messages: seq<MessageModel>, prims: Primitives): seq<seq<Summary>>
  {
    prims.chunkBy(Aggregate(messages, envName, queueName), settings.chunkSize)
  }

  /** The `Authorization` value of one batch: signed with the body's UTF-8 length and the call's date. */
  function BatchAuthorization(settings: LADataSinkSettings, json: string, date: string, crypto: Crypto): Result<string, string>
  {
    var signature :- BuildSignature(StringToSign(Utf8Length(json), date), settings.sharedKey, crypto);
    Success(Authorization(settings.workspaceId, signature))
  }

  /**
   * `SinkMessages`, with `date` the RFC 1123 form of the clock read once at
   * the start. Every batch goes through `PostData`, so each post carries all
   * five headers and a failed send is logged, not thrown. Returns the posts
   * made, in order, and the exception that
   * escaped, if any: the only one is an invalid Base64 shared key, which
   * `BuildSignature` throws before the first post.
   */
  method SinkMessages(settings: LADataSinkSettings, envName: string, queueName: string,
                      messages: seq<MessageModel>, date: string, prims: Primitives, transport: Transport)
    returns (attempts: seq<PostAttempt>, escaped: Option<string>)
    ensures var batches := Batches(settings, envName, queueName, messages, prims);
      && (escaped.Some? <==> |batches| > 0 && prims.crypto.fromBase64(settings.sharedKey).Failure?)
      && (escaped.Some? ==> attempts == [] && escaped.value == prims.crypto.fromBase64(settings.sharedKey).error)
      && (escaped.None? ==> |attempts| == |batches|)
    ensures var batches := Batches(settings, envName, queueName, messages, prims);
      forall i :: 0 <= i < |attempts| ==>
        && i < |batches|
        && attempts[i].request.body == prims.toJson(batches[i])
        && attempts[i].request.url == Url(settings.workspaceId)
        && HeaderValue(attempts[i].request.headers, DateHeaderName) == Some(date)
        && BatchAuthorization(settings, prims.toJson(batches[i]), date, prims.crypto).Success?
        && HeaderValue(attempts[i].request.headers, "Authorization")
           == Some(BatchAuthorization(settings, prims.toJson(batches[i]), date, prims.crypto).value)
        && attempts[i] == PostData(settings, BatchAuthorization(settings, prims.toJson(batches[i]), date, prims.crypto).value,
                                   date, prims.toJson(batches[i]), transport)
  {
    var batches := Batches(settings, envName, queueName, messages, prims);
    attempts := [];
    var i := 0;
    while i < |batches|
      invariant 0 <= i <= |batches|
      invariant |attempts| == i
      invariant i > 0 ==> prims.crypto.fromBase64(settings.sharedKey).Success?
      invariant forall j :: 0 <= j < i ==>
        && attempts[j].request.body == prims.toJson(batches[j])
        && attempts[j].request.url == Url(settings.workspaceId)
        && HeaderValue(attempts[j].request.headers, DateHeaderName) == Some(date)
        && BatchAuthorization(settings, prims.toJson(batches[j]), date, prims.crypto).Success?
        && HeaderValue(attempts[j].request.headers, "Authorization")
           == Some(BatchAuthorization(settings, prims.toJson(batches[j]), date, prims.crypto).value)
        && attempts[j] == PostData(settings, BatchAuthorization(settings, prims.toJson(batches[j]), date, prims.crypto).value,
                                   date, prims.toJson(batches[j]), transport)
    {
      var json := prims.toJson(batches[i]);
      var stringToHash := StringToSign(Utf8Length(json), date);
      var hashed := BuildSignature(stringToHash, settings.sharedKey, prims.crypto);
      if hashed.Failure? {
        return attempts, Some(hashed.error);
      }
      var signature := Authorization(settings.workspaceId, hashed.value);
      attempts := attempts + [PostData(settings, signature, date, json, transport)];
      i := i + 1;
    }
    escaped := None;
  }

  /** The counts in the rows of all batches. */
  function PostedCount(batches: seq<seq<Summary>>): nat
  {
    if |batches| == 0 then 0 else SumCounts(batches[0]) + PostedCount(batches[1..])
  }

  lemma {:induction false} SumCountsAppend(a: seq<Summary>, b: seq<Summary>)
    ensures SumCounts(a + b) == SumCounts(a) + SumCounts(b)
  {
    if |a| == 0 {
      assert a + b == b;
    } else {
      assert (a + b)[1..] == a[1..] + b;
      SumCountsAppend(a[1..], b);
    }
  }

  lemma {:induction false} PostedCountFlatten(batches: seq<seq<Summary>>)
    ensures PostedCount(batches) == SumCounts(Flatten(batches))
  {
    if |batches| > 0 {
      PostedCountFlatten(batches[1..]);
      SumCountsAppend(batches[0], Flatten(batches[1..]));
    }
  }

  /**
   * With batching that loses and repeats nothing, the counts posted across
   * all batches add up to the number of records handed to the sink.
   */
  lemma PostedCountsConserved(settings: LADataSinkSettings, envName: string, queueName: string,
                              messages: seq<MessageModel>, prims: Primitives)
    requires Flatten(Batches(settings, envName, queueName, messages, prims)) == Aggregate(messages, envName, queueName)
    ensures PostedCount(Batches(settings, envName, queueName, messages, prims)) == |messages|
  {
    PostedCountFlatten(Batches(settings, envName, queueName, messages, prims));
    AggregateConservesCount(messages, envName, queueName);
  }

  /** The fixed-size batching meets the requirement above whenever the chunk size is positive. */
  lemma ChunkingConserves(groups: seq<Summary>, size: int)
    requires size > 0
    ensures PostedCount(Chunk(groups, size)) == SumCounts(groups)
  {
    PostedCountFlatten(Chunk(groups, size));
  }
}
