/** A peeked Service Bus message and the error record extracted from it. */
module Messages {
  import opened Text

  /**
   * An application-property value as seen through `value?.ToString()`:
   * a null reference, an object whose `ToString()` returns `text`, or one
   * whose `ToString()` throws an exception with message `error`.
   */
  datatype PropValue = Null | Text(text: string) | Faulty(error: string)

  /** `ServiceBusReceivedMessage`: application properties and the raw body. */
  datatype ReceivedMessage = ReceivedMessage(properties: map<string, PropValue>, body: seq<byte>)

  /** `sbMessageModel`: one extracted error record, every field a string. */
  datatype MessageModel = MessageModel(
    messageId: string,
    timeOfFailure: string,
    exceptionType: string,
    originatingEndpoint: string,
    processingEndpoint: string,
    enclosedMessageTypes: string,
    exceptionMessage: string,
    stackTrace: string,
    rawMessage: string)

  /** A freshly constructed record: every field empty. */
  const EmptyModel := MessageModel("", "", "", "", "", "", "", "", "")

  /** Names the fields of a `MessageModel`, so that assignments can be listed. */
  datatype Field =
    | MessageId | TimeOfFailure | ExceptionType | OriginatingEndpoint | ProcessingEndpoint
    | EnclosedMessageTypes | ExceptionMessage | StackTrace | RawMessage

  function Get(m: MessageModel, f: Field): string
  {
    match f
    case MessageId => m.messageId
    case TimeOfFailure => m.timeOfFailure
    case ExceptionType => m.exceptionType
    case OriginatingEndpoint => m.originatingEndpoint
    case ProcessingEndpoint => m.processingEndpoint
    case EnclosedMessageTypes => m.enclosedMessageTypes
    case ExceptionMessage => m.exceptionMessage
    case StackTrace => m.stackTrace
    case RawMessage => m.rawMessage
  }

  /** `m` with field `f` replaced by `v`. */
  function Set(m: MessageModel, f: Field, v: string): (r: MessageModel)
    ensures Get(r, f) == v
    ensures forall g :: g != f ==> Get(r, g) == Get(m, g)
  {
    match f
    case MessageId => m.(messageId := v)
    case TimeOfFailure => m.(timeOfFailure := v)
    case ExceptionType => m.(exceptionType := v)
    case OriginatingEndpoint => m.(originatingEndpoint := v)
    case ProcessingEndpoint => m.(processingEndpoint := v)
    case EnclosedMessageTypes => m.(enclosedMessageTypes := v)
    case ExceptionMessage => m.(exceptionMessage := v)
    case StackTrace => m.(stackTrace := v)
    case RawMessage => m.(rawMessage := v)
  }
}
