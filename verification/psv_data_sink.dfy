/**
 * The local-file sink (psvDataSink.cs): the peeked records of one queue as
 * a pipe-separated text of eight columns (no raw body), written to a file
 * in the working directory. A failing write is not caught.
 */
module PsvDataSink {
  import opened Wrappers
  import opened Text
  import opened Messages
  import opened PsvText
  import BlobDataSink

  const PsvHeader := CommonHeader
  const PathPrefix := ".\\"

  /** One record as a line: the eight shared columns. */
  function PsvLine(m: MessageModel): string
  {
    CommonColumns(m)
  }

  function PsvLines(messages: seq<MessageModel>): (lines: seq<string>)
    ensures |lines| == |messages|
    ensures forall i :: 0 <= i < |messages| ==> lines[i] == PsvLine(messages[i])
  {
    seq(|messages|, i requires 0 <= i < |messages| => PsvLine(messages[i]))
  }

  /** The whole text the sink writes. */
  function DumpText(messages: seq<MessageModel>, newline: string): string
  {
    Document(PsvHeader, PsvLines(messages), newline)
  }

  function DumpPath(envName: string, queueName: string): string
  {
    PathPrefix + envName + "." + queueName + ".PeekedMessages.psv"
  }

  /** The file is named exactly like the blob, in the working directory. */
  lemma DumpPathIsBlobName(envName: string, queueName: string)
    ensures DumpPath(envName, queueName) == PathPrefix + BlobDataSink.BlobName(envName, queueName)
  {}

  /** A blob line is the file line followed by one more column holding the raw body. */
  lemma BlobLineExtendsPsvLine(m: MessageModel)
    ensures BlobDataSink.BlobLine(m) == PsvLine(m) + Sep + m.rawMessage
    ensures BlobDataSink.BlobHeader == PsvHeader + Sep + "Raw"
  {}

  /** When no field holds a pipe, cutting a line at pipes gives the eight columns in header order. */
  lemma PsvLineSplit(m: MessageModel)
    requires FieldsAvoid(m, '|')
    ensures Split(PsvLine(m), '|') == CommonCells(m)
    ensures |Split(PsvLine(m), '|')| == |Split(PsvHeader, '|')|
  {
    CommonColumnsSplit(m);
    CommonHeaderSplit();
  }

  /**
   * With `"\n"` as the newline and no line feed in any field, the written
   * text splits into the header, then one line per record in input order.
   */
  lemma DumpTextLines(messages: seq<MessageModel>)
    requires forall i :: 0 <= i < |messages| ==> FieldsAvoid(messages[i], '\n')
    ensures Split(DumpText(messages, "\n"), '\n') == [PsvHeader] + PsvLines(messages) + [""]
  {
    PsvLinesAvoidNewline(messages);
    DocumentSplits(PsvHeader, PsvLines(messages));
  }

  /** With any one-line-feed newline, the text holds one line per record after the header. */
  lemma DumpTextLineCount(messages: seq<MessageModel>, newline: string)
    requires CountChar(newline, '\n') == 1
    requires forall i :: 0 <= i < |messages| ==> FieldsAvoid(messages[i], '\n')
    ensures CountChar(DumpText(messages, newline), '\n') == |messages| + 1
  {
    PsvLinesAvoidNewline(messages);
    DocumentLineCount(PsvHeader, PsvLines(messages), newline);
  }

  lemma PsvLinesAvoidNewline(messages: seq<MessageModel>)
    requires forall i :: 0 <= i < |messages| ==> FieldsAvoid(messages[i], '\n')
    ensures '\n' !in PsvHeader && AllAvoid(PsvLines(messages), '\n')
  {
    CommonHeaderOneLine();
    forall i | 0 <= i < |messages| ensures '\n' !in PsvLines(messages)[i] {
      var m := messages[i];
      assert '\n' !in Get(m, MessageId) && '\n' !in Get(m, TimeOfFailure) && '\n' !in Get(m, ExceptionType);
      assert '\n' !in Get(m, OriginatingEndpoint) && '\n' !in Get(m, ProcessingEndpoint);
      assert '\n' !in Get(m, EnclosedMessageTypes) && '\n' !in Get(m, ExceptionMessage);
      assert '\n' !in Get(m, StackTrace);
    }
  }

  /** What the sink asks the file system to do: replace the file at `path` with `contents`. */
  datatype FileWrite = FileWrite(path: string, contents: string)

  /** The file write; `Failure(message)` is any exception it throws. */
  type FileSystem = FileWrite -> Result<(), string>

  datatype SinkOutcome = SinkOutcome(write: FileWrite, result: Result<(), string>)

  /** One call of the sink: a failing write is passed on to the caller. */
  function SinkMessages(envName: string, queueName: string, messages: seq<MessageModel>,
                        newline: string, fs: FileSystem): (r: SinkOutcome)
    ensures r.write.path == DumpPath(envName, queueName)
    ensures r.write.contents == DumpText(messages, newline)
    ensures r.result.Failure? <==> fs(r.write).Failure?
    ensures r.result.Failure? ==> r.result.error == fs(r.write).error
  {
    var write := FileWrite(DumpPath(envName, queueName), DumpText(messages, newline));
    SinkOutcome(write, fs(write))
  }
}
