/**
 * `SvcBusService.FormatMsgToLog`: turn one peeked message into an error
 * record through an ordered fallback — NServiceBus exception headers first,
 * then the broker's dead-letter reason, then (debug builds only) the raw body.
 */
module FieldExtraction {
  import opened Wrappers
  import opened Text
  import opened Messages
  import opened Truncation

  const ExceptionInfoMessageKey := "NServiceBus.ExceptionInfo.Message"
  const DeadLetterReasonKey := "DeadLetterReason"
  const EnclosedMessageTypesKey := "NServiceBus.EnclosedMessageTypes"
  const MessageIdKey := "NServiceBus.MessageId"
  const TimeOfFailureKey := "NServiceBus.TimeOfFailure"
  const TimeSentKey := "NServiceBus.TimeSent"
  const ExceptionTypeKey := "NServiceBus.ExceptionInfo.ExceptionType"
  const OriginatingEndpointKey := "NServiceBus.OriginatingEndpoint"
  const ProcessingEndpointKey := "NServiceBus.ProcessingEndpoint"
  const StackTraceKey := "NServiceBus.ExceptionInfo.StackTrace"

  /** Placed in the fields a dead-lettered message does not carry. */
  const Unknown := "Unknown"

  /** Prefix of `ExceptionMessage` when reading a property threw. */
  const ErrorPrefix := "Error formatting message: "

  /** Longest a truncated field can be, in UTF-16 code units. */
  const FieldLimit: nat := DefaultMaxLength + |Marker|

  /**
   * The string helpers the extractor calls whose bodies are not part of this
   * model: the `CrLfToTilde` extension and `Encoding.UTF8.GetString`.
   */
  datatype Codecs = Codecs(crLfToTilde: string -> string, utf8Decode: seq<byte> -> string)

  function Clip(s: string): string
  {
    Truncate(Some(s), DefaultMaxLength)
  }

  /** `GetStringValue(key)`: a missing key gives "", a present one its truncated `ToString()`. */
  function ReadString(props: map<string, PropValue>, key: string): (r: Result<string, string>)
    ensures key !in props ==> r == Success("")
    ensures r.Failure? <==> key in props && props[key].Faulty?
    ensures r.Success? ==> Utf16Length(r.value) <= FieldLimit
  {
    if key !in props then Success("")
    else match props[key]
      case Null => Success(Truncate(None, DefaultMaxLength))
      case Text(s) => Success(Clip(s))
      case Faulty(e) => Failure(e)
  }

  /** `GetCrLfToTildeValue(key)`. */
  function ReadTilde(props: map<string, PropValue>, key: string, codecs: Codecs): (r: Result<string, string>)
    ensures r.Failure? <==> key in props && props[key].Faulty?
    ensures r.Success? ==> Utf16Length(r.value) <= FieldLimit
  {
    var v :- ReadString(props, key);
    Success(Clip(codecs.crLfToTilde(v)))
  }

  /** `GetSplitFirstValue(key)`: the text before the first comma. */
  function ReadFirstType(props: map<string, PropValue>, key: string): (r: Result<string, string>)
    ensures r.Failure? <==> key in props && props[key].Faulty?
    ensures r.Success? ==> Utf16Length(r.value) <= FieldLimit && ',' !in r.value
  {
    var v :- ReadString(props, key);
    Success(Clip(FirstToken(v, ',')))
  }

  /** The exception message: `Truncate(value?.ToString()?.CrLfToTilde())`. */
  function ReadMessage(value: PropValue, codecs: Codecs): (r: Result<string, string>)
    ensures r.Failure? <==> value.Faulty?
    ensures r.Success? ==> Utf16Length(r.value) <= FieldLimit
  {
    match value
    case Null => Success(Truncate(None, DefaultMaxLength))
    case Text(s) => Success(Clip(codecs.crLfToTilde(s)))
    case Faulty(e) => Failure(e)
  }

  /** One statement of the extractor: store the value read, or throw. */
  datatype Assignment = Assignment(field: Field, value: Result<string, string>)

  /**
   * Runs the assignments in order; the first one that throws is caught: the
   * fields already stored stay, `ExceptionMessage` gets the diagnostic, and
   * the remaining assignments are skipped.
   */
  function Assign(m: MessageModel, steps: seq<Assignment>): MessageModel
    decreases |steps|
  {
    if |steps| == 0 then m
    else match steps[0].value
      case Failure(e) => m.(exceptionMessage := ErrorPrefix + e)
      case Success(v) => Assign(Set(m, steps[0].field, v), steps[1..])
  }

  /** The statements of the `NServiceBus.ExceptionInfo.Message` branch, in source order. */
  function ExceptionInfoSteps(props: map<string, PropValue>, codecs: Codecs): seq<Assignment>
    requires ExceptionInfoMessageKey in props
  {
    [ Assignment(ExceptionMessage, ReadMessage(props[ExceptionInfoMessageKey], codecs)),
      Assignment(EnclosedMessageTypes, ReadFirstType(props, EnclosedMessageTypesKey)),
      Assignment(MessageId, ReadString(props, MessageIdKey)),
      Assignment(TimeOfFailure, ReadString(props, TimeOfFailureKey)),
      Assignment(ExceptionType, ReadString(props, ExceptionTypeKey)),
      Assignment(OriginatingEndpoint, ReadString(props, OriginatingEndpointKey)),
      Assignment(ProcessingEndpoint, ReadString(props, ProcessingEndpointKey)),
      Assignment(StackTrace, ReadTilde(props, StackTraceKey, codecs)) ]
  }

  /** The statements of the `DeadLetterReason` branch, in source order. */
  function DeadLetterSteps(props: map<string, PropValue>, codecs: Codecs): seq<Assignment>
    requires DeadLetterReasonKey in props
  {
    [ Assignment(ExceptionMessage, ReadMessage(props[DeadLetterReasonKey], codecs)),
      Assignment(EnclosedMessageTypes, ReadFirstType(props, EnclosedMessageTypesKey)),
      Assignment(MessageId, ReadString(props, MessageIdKey)),
      Assignment(TimeOfFailure, ReadString(props, TimeSentKey)),
      Assignment(ExceptionType, Success(Unknown)),
      Assignment(OriginatingEndpoint, ReadString(props, OriginatingEndpointKey)),
      Assignment(ProcessingEndpoint, Success(Unknown)),
      Assignment(StackTrace, Success("")) ]
  }

  /** The statements `FormatMsgToLog` runs for `msg`; `debug` selects the DEBUG build. */
  function Steps(msg: ReceivedMessage, debug: bool, codecs: Codecs): seq<Assignment>
  {
    var props := msg.properties;
    if ExceptionInfoMessageKey in props then ExceptionInfoSteps(props, codecs)
    else if DeadLetterReasonKey in props then DeadLetterSteps(props, codecs)
    else if debug then [Assignment(RawMessage, Success(Clip(codecs.utf8Decode(msg.body))))]
    else []
  }

  /** `FormatMsgToLog`: total — every message yields a record. */
  function FormatMsgToLog(msg: ReceivedMessage, debug: bool, codecs: Codecs): MessageModel
  {
    Assign(EmptyModel, Steps(msg, debug, codecs))
  }

  // ---------------------------------------------------------------------------
  // What a run of assignments leaves behind.

  /** No assignment in `steps` throws. */
  predicate NoneThrows(steps: seq<Assignment>)
  {
    forall i :: 0 <= i < |steps| ==> steps[i].value.Success?
  }

  /** The value the last successful assignment to `f` stores, or `dflt` if none does. */
  function LastStored(steps: seq<Assignment>, f: Field, dflt: string): string
    requires NoneThrows(steps)
  {
    if |steps| == 0 then dflt
    else if steps[|steps| - 1].field == f then steps[|steps| - 1].value.value
    else LastStored(steps[..|steps| - 1], f, dflt)
  }

  /** A field that no step assigns keeps its value, unless a throw rewrites `ExceptionMessage`. */
  lemma {:induction false} AssignKeeps(m: MessageModel, steps: seq<Assignment>, f: Field)
    requires f != ExceptionMessage
    requires forall i :: 0 <= i < |steps| ==> steps[i].field != f
    ensures Get(Assign(m, steps), f) == Get(m, f)
    decreases |steps|
  {
    if |steps| > 0 && steps[0].value.Success? {
      AssignKeeps(Set(m, steps[0].field, steps[0].value.value), steps[1..], f);
    }
  }

  /** Without a throw, every field holds the value last stored into it. */
  lemma {:induction false} AssignStores(m: MessageModel, steps: seq<Assignment>, f: Field)
    requires NoneThrows(steps)
    ensures Get(Assign(m, steps), f) == LastStored(steps, f, Get(m, f))
    decreases |steps|
  {
    if |steps| > 0 {
      var m1 := Set(m, steps[0].field, steps[0].value.value);
      AssignStores(m1, steps[1..], f);
      LastStoredFirst(steps, f, Get(m, f));
    }
  }

  lemma {:induction false} LastStoredFirst(steps: seq<Assignment>, f: Field, dflt: string)
    requires |steps| > 0 && NoneThrows(steps)
    ensures LastStored(steps, f, dflt)
         == LastStored(steps[1..], f, if steps[0].field == f then steps[0].value.value else dflt)
  {
    var d1 := if steps[0].field == f then steps[0].value.value else dflt;
    if |steps| > 1 {
      assert steps[..|steps| - 1][1..] == steps[1..][..|steps[1..]| - 1];
      if steps[|steps| - 1].field != f {
        LastStoredFirst(steps[..|steps| - 1], f, dflt);
      }
    }
  }

  /** The first throwing assignment decides `ExceptionMessage`, whatever follows it. */
  lemma {:induction false} AssignCatches(m: MessageModel, steps: seq<Assignment>, k: nat)
    requires k < |steps| && steps[k].value.Failure?
    requires NoneThrows(steps[..k])
    ensures Assign(m, steps).exceptionMessage == ErrorPrefix + steps[k].value.error
    ensures forall f :: f != ExceptionMessage ==>
      Get(Assign(m, steps), f) == LastStored(steps[..k], f, Get(m, f))
    decreases k
  {
    if k == 0 {
      forall f | f != ExceptionMessage
        ensures Get(Assign(m, steps), f) == LastStored(steps[..k], f, Get(m, f))
      {
      }
    } else {
      assert steps[0].value == steps[..k][0].value;
      var m1 := Set(m, steps[0].field, steps[0].value.value);
      assert steps[1..][..k - 1] == steps[..k][1..];
      AssignCatches(m1, steps[1..], k - 1);
      forall f | f != ExceptionMessage
        ensures Get(Assign(m, steps), f) == LastStored(steps[..k], f, Get(m, f))
      {
        LastStoredFirst(steps[..k], f, Get(m, f));
      }
    }
  }

  /** A property of one field that every value stored into it has is kept by the run. */
  lemma {:induction false} AssignPreserves(m: MessageModel, steps: seq<Assignment>, f: Field, P: string -> bool)
    requires f != ExceptionMessage
    requires P(Get(m, f))
    requires forall a :: a in steps && a.field == f && a.value.Success? ==> P(a.value.value)
    ensures P(Get(Assign(m, steps), f))
    decreases |steps|
  {
    if |steps| > 0 && steps[0].value.Success? {
      assert steps[0] in steps;
      AssignPreserves(Set(m, steps[0].field, steps[0].value.value), steps[1..], f, P);
    }
  }

  /** The same for `ExceptionMessage`, except that a caught throw may leave the diagnostic there instead. */
  lemma {:induction false} AssignPreservesMessage(m: MessageModel, steps: seq<Assignment>, P: string -> bool)
    requires P(m.exceptionMessage)
    requires forall a :: a in steps && a.field == ExceptionMessage && a.value.Success? ==> P(a.value.value)
    ensures P(Assign(m, steps).exceptionMessage) || ErrorPrefix <= Assign(m, steps).exceptionMessage
    decreases |steps|
  {
    if |steps| > 0 && steps[0].value.Success? {
      assert steps[0] in steps;
      AssignPreservesMessage(Set(m, steps[0].field, steps[0].value.value), steps[1..], P);
    }
  }

  /** One assignment that does not throw. */
  function Store(m: MessageModel, a: Assignment): MessageModel
    requires a.value.Success?
  {
    Set(m, a.field, a.value.value)
  }

  lemma AssignUnfold(m: MessageModel, steps: seq<Assignment>, i: nat)
    requires i < |steps| && steps[i].value.Success?
    ensures Assign(m, steps[i..]) == Assign(Store(m, steps[i]), steps[i + 1..])
  {
    assert steps[i..][1..] == steps[i + 1..];
  }

  /** Eight assignments that do not throw are eight stores, in order. */
  lemma AssignEight(m: MessageModel, st: seq<Assignment>)
    requires |st| == 8 && NoneThrows(st)
    ensures Assign(m, st) ==
      Store(Store(Store(Store(Store(Store(Store(Store(m,
        st[0]), st[1]), st[2]), st[3]), st[4]), st[5]), st[6]), st[7])
  {
    assert st[0..] == st;
    var m0 := m;
    AssignUnfold(m0, st, 0);
    var m1 := Store(m0, st[0]);
    AssignUnfold(m1, st, 1);
    var m2 := Store(m1, st[1]);
    AssignUnfold(m2, st, 2);
    var m3 := Store(m2, st[2]);
    AssignUnfold(m3, st, 3);
    var m4 := Store(m3, st[3]);
    AssignUnfold(m4, st, 4);
    var m5 := Store(m4, st[4]);
    AssignUnfold(m5, st, 5);
    var m6 := Store(m5, st[5]);
    AssignUnfold(m6, st, 6);
    var m7 := Store(m6, st[6]);
    AssignUnfold(m7, st, 7);
    assert st[8..] == [];
  }

  /** Eight throw-free assignments in the order both header branches use fill the record field by field. */
  lemma AssignBranchOrder(st: seq<Assignment>)
    requires |st| == 8 && NoneThrows(st)
    requires st[0].field == ExceptionMessage && st[1].field == EnclosedMessageTypes
    requires st[2].field == MessageId && st[3].field == TimeOfFailure && st[4].field == ExceptionType
    requires st[5].field == OriginatingEndpoint && st[6].field == ProcessingEndpoint && st[7].field == StackTrace
    ensures Assign(EmptyModel, st) == MessageModel(
      st[2].value.value, st[3].value.value, st[4].value.value, st[5].value.value, st[6].value.value,
      st[1].value.value, st[0].value.value, st[7].value.value, "")
  {
    AssignEight(EmptyModel, st);
  }

  /** A readable property reads as its stored text. */
  lemma ReadIsText(props: map<string, PropValue>, key: string)
    requires key in props ==> !props[key].Faulty?
    ensures ReadString(props, key) == Success(PropertyText(props, key))
  {}

  // ---------------------------------------------------------------------------
  // The extractor's promises.

  /** None of `keys` holds a value whose `ToString()` throws. */
  predicate Readable(props: map<string, PropValue>, keys: set<string>)
  {
    forall k :: k in keys && k in props ==> !props[k].Faulty?
  }

  /** The value of a present, readable property as the record stores it: "" when missing or null. */
  function PropertyText(props: map<string, PropValue>, key: string): string
  {
    if key in props && props[key].Text? then Clip(props[key].text) else ""
  }

  const ExceptionInfoKeys := {ExceptionInfoMessageKey, EnclosedMessageTypesKey, MessageIdKey,
    TimeOfFailureKey, ExceptionTypeKey, OriginatingEndpointKey, ProcessingEndpointKey, StackTraceKey}

  const DeadLetterKeys := {DeadLetterReasonKey, EnclosedMessageTypesKey, MessageIdKey,
    TimeSentKey, OriginatingEndpointKey}

  /**
   * A message carrying `NServiceBus.ExceptionInfo.Message` takes every field
   * from its `NServiceBus.*` header, the failure time from
   * `NServiceBus.TimeOfFailure`, and only the first enclosed type; the raw
   * body is never captured.
   */
  lemma ExceptionInfoBranch(msg: ReceivedMessage, debug: bool, codecs: Codecs)
    requires ExceptionInfoMessageKey in msg.properties
    requires Readable(msg.properties, ExceptionInfoKeys)
    ensures var r := FormatMsgToLog(msg, debug, codecs);
      var props := msg.properties;
      && r.exceptionMessage == (if props[ExceptionInfoMessageKey].Text?
                                then Clip(codecs.crLfToTilde(props[ExceptionInfoMessageKey].text)) else "")
      && r.enclosedMessageTypes == Clip(FirstToken(PropertyText(props, EnclosedMessageTypesKey), ','))
      && r.messageId == PropertyText(props, MessageIdKey)
      && r.timeOfFailure == PropertyText(props, TimeOfFailureKey)
      && r.exceptionType == PropertyText(props, ExceptionTypeKey)
      && r.originatingEndpoint == PropertyText(props, OriginatingEndpointKey)
      && r.processingEndpoint == PropertyText(props, ProcessingEndpointKey)
      && r.stackTrace == Clip(codecs.crLfToTilde(PropertyText(props, StackTraceKey)))
      && r.rawMessage == ""
  {
    var props := msg.properties;
    var st := ExceptionInfoSteps(props, codecs);
    ReadIsText(props, EnclosedMessageTypesKey);
    ReadIsText(props, MessageIdKey);
    ReadIsText(props, TimeOfFailureKey);
    ReadIsText(props, ExceptionTypeKey);
    ReadIsText(props, OriginatingEndpointKey);
    ReadIsText(props, ProcessingEndpointKey);
    ReadIsText(props, StackTraceKey);
    AssignBranchOrder(st);
  }

  /**
   * A dead-lettered message without exception headers: exception type and
   * processing endpoint are the `"Unknown"` sentinel, the stack trace is
   * empty, and the failure time is the time the message was sent.
   */
  lemma DeadLetterBranch(msg: ReceivedMessage, debug: bool, codecs: Codecs)
    requires ExceptionInfoMessageKey !in msg.properties && DeadLetterReasonKey in msg.properties
    requires Readable(msg.properties, DeadLetterKeys)
    ensures var r := FormatMsgToLog(msg, debug, codecs);
      var props := msg.properties;
      && r.exceptionMessage == (if props[DeadLetterReasonKey].Text?
                                then Clip(codecs.crLfToTilde(props[DeadLetterReasonKey].text)) else "")
      && r.enclosedMessageTypes == Clip(FirstToken(PropertyText(props, EnclosedMessageTypesKey), ','))
      && r.messageId == PropertyText(props, MessageIdKey)
      && r.timeOfFailure == PropertyText(props, TimeSentKey)
      && r.exceptionType == Unknown
      && r.originatingEndpoint == PropertyText(props, OriginatingEndpointKey)
      && r.processingEndpoint == Unknown
      && r.stackTrace == ""
      && r.rawMessage == ""
  {
    var props := msg.properties;
    var st := DeadLetterSteps(props, codecs);
    ReadIsText(props, EnclosedMessageTypesKey);
    ReadIsText(props, MessageIdKey);
    ReadIsText(props, TimeSentKey);
    ReadIsText(props, OriginatingEndpointKey);
    AssignBranchOrder(st);
  }

  /**
   * Neither shape: every field keeps its empty default, except that a DEBUG
   * build captures the truncated UTF-8 text of the body.
   */
  lemma UnrecognisedShape(msg: ReceivedMessage, debug: bool, codecs: Codecs)
    requires ExceptionInfoMessageKey !in msg.properties && DeadLetterReasonKey !in msg.properties
    ensures FormatMsgToLog(msg, debug, codecs) ==
      if debug then EmptyModel.(rawMessage := Clip(codecs.utf8Decode(msg.body))) else EmptyModel
  {
    var st := Steps(msg, debug, codecs);
    if debug {
      AssignUnfold(EmptyModel, st, 0);
      assert st[0..] == st;
      assert st[1..] == [];
    }
  }

  /** Reading one key does not see an update of another. */
  lemma ReadsUnaffected(props: map<string, PropValue>, key: string, other: string, v: PropValue, codecs: Codecs)
    requires |key| != |other|
    ensures ReadString(props[other := v], key) == ReadString(props, key)
    ensures ReadTilde(props[other := v], key, codecs) == ReadTilde(props, key, codecs)
    ensures ReadFirstType(props[other := v], key) == ReadFirstType(props, key)
  {}

  /** `NServiceBus.ExceptionInfo.Message` wins: the dead-letter reason is not even read. */
  lemma ExceptionInfoTakesPrecedence(msg: ReceivedMessage, v: PropValue, debug: bool, codecs: Codecs)
    requires ExceptionInfoMessageKey in msg.properties
    ensures var other := msg.(properties := msg.properties[DeadLetterReasonKey := v]);
      FormatMsgToLog(other, debug, codecs) == FormatMsgToLog(msg, debug, codecs)
  {
    var props := msg.properties;
    var props' := props[DeadLetterReasonKey := v];
    var d := DeadLetterReasonKey;
    assert |d| == 16 && |ExceptionInfoMessageKey| == 33;
    assert props'[ExceptionInfoMessageKey] == props[ExceptionInfoMessageKey];
    ReadsUnaffected(props, EnclosedMessageTypesKey, d, v, codecs);
    ReadsUnaffected(props, MessageIdKey, d, v, codecs);
    ReadsUnaffected(props, TimeOfFailureKey, d, v, codecs);
    ReadsUnaffected(props, ExceptionTypeKey, d, v, codecs);
    ReadsUnaffected(props, OriginatingEndpointKey, d, v, codecs);
    ReadsUnaffected(props, ProcessingEndpointKey, d, v, codecs);
    ReadsUnaffected(props, StackTraceKey, d, v, codecs);
    assert ExceptionInfoSteps(props', codecs) == ExceptionInfoSteps(props, codecs);
  }

  /** The dead-letter branch ignores the exception headers it does not read. */
  lemma DeadLetterIgnoresExceptionHeaders(msg: ReceivedMessage, key: string, v: PropValue, debug: bool, codecs: Codecs)
    requires ExceptionInfoMessageKey !in msg.properties && DeadLetterReasonKey in msg.properties
    requires key in {TimeOfFailureKey, ExceptionTypeKey, ProcessingEndpointKey, StackTraceKey}
    ensures var other := msg.(properties := msg.properties[key := v]);
      FormatMsgToLog(other, debug, codecs) == FormatMsgToLog(msg, debug, codecs)
  {
    var props := msg.properties;
    var props' := props[key := v];
    assert |key| in {25, 39, 30, 36};
    assert |ExceptionInfoMessageKey| == 33 && |DeadLetterReasonKey| == 16;
    assert ExceptionInfoMessageKey !in props';
    assert props'[DeadLetterReasonKey] == props[DeadLetterReasonKey];
    ReadsUnaffected(props, EnclosedMessageTypesKey, key, v, codecs);
    ReadsUnaffected(props, MessageIdKey, key, v, codecs);
    ReadsUnaffected(props, TimeSentKey, key, v, codecs);
    ReadsUnaffected(props, OriginatingEndpointKey, key, v, codecs);
    assert DeadLetterSteps(props', codecs) == DeadLetterSteps(props, codecs);
  }

  /**
   * Extraction never fails: every field but `ExceptionMessage` fits the
   * truncation limit, and `ExceptionMessage` fits it too unless it is the
   * (untruncated) diagnostic of a caught exception. The enclosed type never
   * holds a comma.
   */
  lemma FormatIsBounded(msg: ReceivedMessage, debug: bool, codecs: Codecs)
    ensures var r := FormatMsgToLog(msg, debug, codecs);
      && (forall f :: f != ExceptionMessage ==> Utf16Length(Get(r, f)) <= FieldLimit)
      && (Utf16Length(r.exceptionMessage) <= FieldLimit || ErrorPrefix <= r.exceptionMessage)
      && ',' !in r.enclosedMessageTypes
  {
    var st := Steps(msg, debug, codecs);
    StepsAreBounded(msg, debug, codecs);
    var bounded := (s: string) => Utf16Length(s) <= FieldLimit;
    forall f | f != ExceptionMessage
      ensures Utf16Length(Get(Assign(EmptyModel, st), f)) <= FieldLimit
    {
      AssignPreserves(EmptyModel, st, f, bounded);
    }
    AssignPreservesMessage(EmptyModel, st, bounded);
    var commaFree := (s: string) => ',' !in s;
    AssignPreserves(EmptyModel, st, EnclosedMessageTypes, commaFree);
  }

  /** Every value the extractor would store fits the limit; the enclosed type has no comma. */
  lemma StepsAreBounded(msg: ReceivedMessage, debug: bool, codecs: Codecs)
    ensures forall a :: a in Steps(msg, debug, codecs) && a.value.Success? ==>
      && Utf16Length(a.value.value) <= FieldLimit
      && (a.field == EnclosedMessageTypes ==> ',' !in a.value.value)
  {
    var props := msg.properties;
    var st := Steps(msg, debug, codecs);
    if ExceptionInfoMessageKey in props || DeadLetterReasonKey in props {
      assert |st| == 8 && st[1].field == EnclosedMessageTypes;
      assert forall i :: 0 <= i < 8 && i != 1 ==> st[i].field != EnclosedMessageTypes;
      assert forall i :: 0 <= i < 8 && st[i].value.Success? ==> Utf16Length(st[i].value.value) <= FieldLimit;
    }
  }

  /**
   * A throw while reading the message id is caught: the two fields stored
   * before it stay, `ExceptionMessage` becomes the diagnostic, untruncated,
   * and the later fields stay empty.
   */
  lemma ExtractionCatches(msg: ReceivedMessage, e: string, debug: bool, codecs: Codecs)
    requires ExceptionInfoMessageKey in msg.properties
    requires Readable(msg.properties, {ExceptionInfoMessageKey, EnclosedMessageTypesKey})
    requires MessageIdKey in msg.properties && msg.properties[MessageIdKey] == Faulty(e)
    ensures var r := FormatMsgToLog(msg, debug, codecs);
      && r.exceptionMessage == ErrorPrefix + e
      && r.enclosedMessageTypes == Clip(FirstToken(PropertyText(msg.properties, EnclosedMessageTypesKey), ','))
      && r.messageId == "" && r.timeOfFailure == "" && r.exceptionType == ""
      && r.originatingEndpoint == "" && r.processingEndpoint == "" && r.stackTrace == ""
      && r.rawMessage == ""
  {
    var st := ExceptionInfoSteps(msg.properties, codecs);
    assert st[0..] == st;
    AssignUnfold(EmptyModel, st, 0);
    var m1 := Store(EmptyModel, st[0]);
    AssignUnfold(m1, st, 1);
    var m2 := Store(m1, st[1]);
    assert Assign(m2, st[2..]) == m2.(exceptionMessage := ErrorPrefix + e);
  }
}
