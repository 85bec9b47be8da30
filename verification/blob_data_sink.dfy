/**
 * The blob sink (BlobDataSink.cs): the peeked records of one queue as a
 * pipe-separated text of nine columns, uploaded as one blob named after the
 * environment and the queue. A storage failure is logged and swallowed.
 */
module BlobDataSink {
  import opened Wrappers
  import opened Text
  import opened Messages
  import opened Configuration
  import opened PsvText

  /** The nine-column header: the shared titles, then `Raw`. */
  const BlobHeader := CommonHeader + Sep + "Raw"
  const BlobSuffix := ".PeekedMessages.psv"
  const UploadedMessage := "File Successfully uploaded"
  const StorageErrorPrefix := "Could not connect to storage: "

  /** A constructed sink: its settings and its logger. */
  datatype Sink<L> = Sink(config: BlobDataSinkSettings, logger: L)

  /** The constructor: the settings value is checked before the logger. */
  function Create<L>(config: Option<BlobDataSinkSettings>, logger: Option<L>): (r: Result<Sink<L>, string>)
    ensures r.Success? <==> config.Some? && logger.Some?
    ensures config.None? ==> r == Failure(ConfigIsNull)
    ensures config.Some? && logger.None? ==> r == Failure(LoggerIsNull)
    ensures r.Success? ==> r.value.config == config.value && r.value.logger == logger.value
  {
    if config.None? then Failure(ConfigIsNull)
    else if logger.None? then Failure(LoggerIsNull)
    else Success(Sink(config.value, logger.value))
  }

  /** One record as a line: the shared columns, then the raw body. */
  function BlobLine(m: MessageModel): string
  {
    CommonColumns(m) + Sep + m.rawMessage
  }

  function BlobLines(messages: seq<MessageModel>): (lines: seq<string>)
    ensures |lines| == |messages|
    ensures forall i :: 0 <= i < |messages| ==> lines[i] == BlobLine(messages[i])
  {
    seq(|messages|, i requires 0 <= i < |messages| => BlobLine(messages[i]))
  }

  /** The whole text the sink uploads, before UTF-8 encoding. */
  function BlobText(messages: seq<MessageModel>, newline: string): string
  {
    Document(BlobHeader, BlobLines(messages), newline)
  }

  function BlobName(envName: string, queueName: string): string
  {
    envName + "." + queueName + BlobSuffix
  }

  /** The nine cells a line falls into at its pipe characters, padding included. */
  function BlobCells(m: MessageModel): seq<string>
  {
    CommonCells(m)[..7] + [" " + m.stackTrace + " ", " " + m.rawMessage]
  }

  /**
   * When no field holds a pipe, cutting a line at pipes gives the nine
   * columns in header order, each field padded by the separators around it.
   */
  lemma BlobLineSplit(m: MessageModel)
    requires FieldsAvoid(m, '|')
    ensures Split(BlobLine(m), '|') == BlobCells(m)
  {
    var c := CommonCells(m);
    assert '|' !in Get(m, MessageId) && '|' !in Get(m, TimeOfFailure) && '|' !in Get(m, ExceptionType);
    assert '|' !in Get(m, OriginatingEndpoint) && '|' !in Get(m, ProcessingEndpoint);
    assert '|' !in Get(m, EnclosedMessageTypes) && '|' !in Get(m, ExceptionMessage);
    assert '|' !in Get(m, StackTrace) && '|' !in Get(m, RawMessage);
    CommonColumnsJoin(m);
    assert c == c[..7] + [c[7]];
    JoinCellsSep(c[..7], c[7], m.rawMessage);
    SplitJoinCells(BlobCells(m), '|');
  }

  /** Cutting the header at pipes gives the nine titles in the order of a line's cells. */
  lemma BlobHeaderSplit()
    ensures Split(BlobHeader, '|') == HeaderCells(CommonTitles + ["Raw"])
  {
    var t := CommonTitles;
    assert AllAvoid(t + ["Raw"], '|');
    var c := HeaderCells(t);
    HeaderJoin(t);
    assert c == c[..7] + [c[7]];
    JoinCellsSep(c[..7], c[7], "Raw");
    HeaderCellsSnoc(t, "Raw");
    SplitJoinCells(HeaderCells(t + ["Raw"]), '|');
  }

  /**
   * With `"\n"` as the newline and no line feed in any field, the uploaded
   * text splits into the header, then one line per record in input order.
   */
  lemma BlobTextLines(messages: seq<MessageModel>)
    requires forall i :: 0 <= i < |messages| ==> FieldsAvoid(messages[i], '\n')
    ensures Split(BlobText(messages, "\n"), '\n') == [BlobHeader] + BlobLines(messages) + [""]
  {
    LinesAvoidNewline(messages);
    DocumentSplits(BlobHeader, BlobLines(messages));
  }

  /** With any one-line-feed newline, the text holds one line per record after the header. */
  lemma BlobTextLineCount(messages: seq<MessageModel>, newline: string)
    requires CountChar(newline, '\n') == 1
    requires forall i :: 0 <= i < |messages| ==> FieldsAvoid(messages[i], '\n')
    ensures CountChar(BlobText(messages, newline), '\n') == |messages| + 1
  {
    LinesAvoidNewline(messages);
    DocumentLineCount(BlobHeader, BlobLines(messages), newline);
  }

  lemma LinesAvoidNewline(messages: seq<MessageModel>)
    requires forall i :: 0 <= i < |messages| ==> FieldsAvoid(messages[i], '\n')
    ensures '\n' !in BlobHeader && AllAvoid(BlobLines(messages), '\n')
  {
    CommonHeaderOneLine();
    forall i | 0 <= i < |messages| ensures '\n' !in BlobLines(messages)[i] {
      var m := messages[i];
      assert '\n' !in Get(m, MessageId) && '\n' !in Get(m, TimeOfFailure) && '\n' !in Get(m, ExceptionType);
      assert '\n' !in Get(m, OriginatingEndpoint) && '\n' !in Get(m, ProcessingEndpoint);
      assert '\n' !in Get(m, EnclosedMessageTypes) && '\n' !in Get(m, ExceptionMessage);
      assert '\n' !in Get(m, StackTrace) && '\n' !in Get(m, RawMessage);
    }
  }

  /** With dot-free environment and queue names, the blob name splits back into them. */
  lemma BlobNameSplit(envName: string, queueName: string)
    requires '.' !in envName && '.' !in queueName
    ensures Split(BlobName(envName, queueName), '.') == [envName, queueName, "PeekedMessages", "psv"]
  {
    var cells := [envName, queueName, "PeekedMessages", "psv"];
    assert JoinCells(cells[3..], '.') == "psv";
    assert JoinCells(cells[2..], '.') == "PeekedMessages" + ['.'] + "psv";
    assert JoinCells(cells[1..], '.') == queueName + ['.'] + JoinCells(cells[2..], '.');
    assert BlobName(envName, queueName) == JoinCells(cells, '.');
    SplitJoinCells(cells, '.');
  }

  /** Distinct dot-free (environment, queue) pairs never share a blob. */
  lemma BlobNameInjective(e1: string, q1: string, e2: string, q2: string)
    requires '.' !in e1 && '.' !in q1 && '.' !in e2 && '.' !in q2
    requires BlobName(e1, q1) == BlobName(e2, q2)
    ensures e1 == e2 && q1 == q2
  {
    BlobNameSplit(e1, q1);
    BlobNameSplit(e2, q2);
  }

  /** What the sink hands to storage: account, container, blob, bytes, overwrite flag. */
  datatype UploadRequest = UploadRequest(
    connectionString: string,
    containerName: string,
    blobName: string,
    content: seq<byte>,
    overwrite: bool)

  /**
   * Client construction, container creation and upload as one call;
   * `Failure(message)` is any exception they throw.
   */
  type Storage = UploadRequest -> Result<(), string>

  datatype LogLine = Information(text: string) | Critical(text: string)

  datatype SinkOutcome = SinkOutcome(request: UploadRequest, log: LogLine)

  /**
   * One call of the sink. The outcome is not a `Result`: whatever storage
   * throws is caught and becomes a critical log line.
   */
  function SinkMessages<L>(sink: Sink<L>, envName: string, queueName: string, messages: seq<MessageModel>,
                        newline: string, utf8Encode: string -> seq<byte>, storage: Storage): (r: SinkOutcome)
    ensures r.request.connectionString == sink.config.storageConnectionString
    ensures r.request.containerName == sink.config.storageContainerName
    ensures r.request.blobName == BlobName(envName, queueName) && r.request.overwrite
    ensures r.request.content == utf8Encode(BlobText(messages, newline))
    ensures storage(r.request).Success? <==> r.log == Information(UploadedMessage)
    ensures storage(r.request).Failure? ==> r.log == Critical(StorageErrorPrefix + storage(r.request).error)
  {
    var request := UploadRequest(sink.config.storageConnectionString, sink.config.storageContainerName,
                                 BlobName(envName, queueName), utf8Encode(BlobText(messages, newline)), true);
    match storage(request)
    case Success(_) => SinkOutcome(request, Information(UploadedMessage))
    case Failure(e) => SinkOutcome(request, Critical(StorageErrorPrefix + e))
  }
}
