/**
 * The engine (QueueAnalyser.cs): construction with null guards, and one run
 * that discovers the error queues, peeks each in turn, hands every non-empty
 * batch to the sink and keeps a running 32-bit message total.
 */
module QueueAnalyser {
  import opened Wrappers
  import opened Messages
  import opened Configuration
  import opened Arithmetic
  import QueueDiscovery

  const DataSinkIsNull := "data sink is null"
  const ServiceIsNull := "service is null"
  /** The engine's constructor spells this one with a capital letter. */
  const EngineLoggerIsNull := "Logger is null"

  /** A constructed analyser over a sink, a Service Bus service and a logger of any kind. */
  datatype Analyser<S, V, L> = Analyser(dataSink: S, svcBusSvc: V, config: ServiceBusRepoSettings, logger: L)

  /** The constructor: the four arguments are checked in declaration order and the first missing one is reported. */
  function Create<S, V, L>(dataSink: Option<S>, svcBusSvc: Option<V>, config: Option<ServiceBusRepoSettings>,
                           logger: Option<L>): (r: Result<Analyser<S, V, L>, string>)
    ensures r.Success? <==> dataSink.Some? && svcBusSvc.Some? && config.Some? && logger.Some?
    ensures dataSink.None? ==> r == Failure(DataSinkIsNull)
    ensures dataSink.Some? && svcBusSvc.None? ==> r == Failure(ServiceIsNull)
    ensures dataSink.Some? && svcBusSvc.Some? && config.None? ==> r == Failure(ConfigIsNull)
    ensures dataSink.Some? && svcBusSvc.Some? && config.Some? && logger.None? ==> r == Failure(EngineLoggerIsNull)
    ensures r.Success? ==> r.value == Analyser(dataSink.value, svcBusSvc.value, config.value, logger.value)
  {
    if dataSink.None? then Failure(DataSinkIsNull)
    else if svcBusSvc.None? then Failure(ServiceIsNull)
    else if config.None? then Failure(ConfigIsNull)
    else if logger.None? then Failure(EngineLoggerIsNull)
    else Success(Analyser(dataSink.value, svcBusSvc.value, config.value, logger.value))
  }

  /** A peek: the list of peeked records, or the message of the exception it throws. */
  type Peek = string -> Result<seq<MessageModel>, string>

  /** One invocation of the sink. */
  datatype SinkCall = SinkCall(envName: string, queueName: string, messages: seq<MessageModel>)

  /** What a run did: queues peeked in order, sink invocations in order, the reported total, and the exception that ended it. */
  datatype RunOutcome = RunOutcome(peeked: seq<string>, sinkCalls: seq<SinkCall>, total: int, failure: Option<string>)

  predicate AllSucceed(names: seq<string>, peek: Peek)
  {
    forall i :: 0 <= i < |names| ==> peek(names[i]).Success?
  }

  /** The index of the first queue whose peek throws, or the number of queues. */
  function FirstFailure(names: seq<string>, peek: Peek): (k: nat)
    ensures k <= |names|
    ensures AllSucceed(names[..k], peek)
    ensures k < |names| ==> peek(names[k]).Failure?
  {
    if |names| == 0 || peek(names[0]).Failure? then 0
    else
      var k := 1 + FirstFailure(names[1..], peek);
      assert forall i :: 1 <= i < k ==> names[..k][i] == names[1..][..k - 1][i - 1];
      k
  }

  /** The exact number of records the peeks return. */
  function PeekedSum(names: seq<string>, peek: Peek): nat
    requires AllSucceed(names, peek)
  {
    if |names| == 0 then 0
    else PeekedSum(names[..|names| - 1], peek) + |peek(names[|names| - 1]).value|
  }

  /** The sink invocations for queues whose peeks all succeed: one per non-empty list, in queue order. */
  function Calls(envName: string, names: seq<string>, peek: Peek): seq<SinkCall>
    requires AllSucceed(names, peek)
  {
    if |names| == 0 then []
    else
      var q := names[|names| - 1];
      var msgs := peek(q).value;
      Calls(envName, names[..|names| - 1], peek) + (if |msgs| > 0 then [SinkCall(envName, q, msgs)] else [])
  }

  /** The queue of every sink invocation, in order. */
  function CallQueues(calls: seq<SinkCall>): (qs: seq<string>)
    ensures |qs| == |calls|
    ensures forall i :: 0 <= i < |calls| ==> qs[i] == calls[i].queueName
  {
    seq(|calls|, i requires 0 <= i < |calls| => calls[i].queueName)
  }

  /** The number of records handed to the sink over all invocations. */
  function CallRecords(calls: seq<SinkCall>): nat
  {
    if |calls| == 0 then 0 else CallRecords(calls[..|calls| - 1]) + |calls[|calls| - 1].messages|
  }

  /** A queue whose peek succeeds with at least one record. */
  predicate HasRecords(peek: Peek, q: string)
  {
    peek(q).Success? && |peek(q).value| > 0
  }

  /** `HasRecords` as a predicate value, so that every mention denotes the same function. */
  function HasRecordsIn(peek: Peek): string -> bool
  {
    q => HasRecords(peek, q)
  }

  /**
   * Every sink invocation carries the configured environment, a queue that
   * was discovered, and exactly that queue's non-empty list.
   */
  lemma {:induction false} CallsCarryPeeks(envName: string, names: seq<string>, peek: Peek)
    requires AllSucceed(names, peek)
    ensures forall c :: c in Calls(envName, names, peek) ==>
      c.envName == envName && c.queueName in names && c.messages == peek(c.queueName).value && |c.messages| > 0
  {
    if |names| > 0 {
      var init := names[..|names| - 1];
      assert AllSucceed(init, peek) by {
        forall j | 0 <= j < |init| ensures peek(init[j]).Success? { assert init[j] == names[j]; }
      }
      CallsCarryPeeks(envName, init, peek);
      forall q | q in init ensures q in names { var j :| 0 <= j < |init| && init[j] == q; assert names[j] == q; }
    }
  }

  /** The sink is invoked for the queues with records, once each, in discovery order, and for no other. */
  lemma {:induction false} CallsFollowQueues(envName: string, names: seq<string>, peek: Peek)
    requires AllSucceed(names, peek)
    ensures CallQueues(Calls(envName, names, peek)) == QueueDiscovery.Filter(names, HasRecordsIn(peek))
  {
    if |names| > 0 {
      var init := names[..|names| - 1];
      var q := names[|names| - 1];
      assert AllSucceed(init, peek) by {
        forall j | 0 <= j < |init| ensures peek(init[j]).Success? { assert init[j] == names[j]; }
      }
      CallsFollowQueues(envName, init, peek);
      var tail := if |peek(q).value| > 0 then [SinkCall(envName, q, peek(q).value)] else [];
      assert CallQueues(Calls(envName, init, peek) + tail) == CallQueues(Calls(envName, init, peek)) + CallQueues(tail);
      assert HasRecordsIn(peek)(q) == (|peek(q).value| > 0);
    }
  }

  /** The sink is invoked for a queue if and only if the queue was discovered and its peek returned records. */
  lemma SinkCalledIff(envName: string, names: seq<string>, peek: Peek, q: string)
    requires AllSucceed(names, peek)
    ensures q in CallQueues(Calls(envName, names, peek)) <==> q in names && HasRecords(peek, q)
  {
    CallsFollowQueues(envName, names, peek);
    QueueDiscovery.FilterMembers(names, HasRecordsIn(peek), q);
  }

  /** Every peeked record reaches the sink: skipping empty lists loses nothing. */
  lemma {:induction false} CallsCarryEveryRecord(envName: string, names: seq<string>, peek: Peek)
    requires AllSucceed(names, peek)
    ensures CallRecords(Calls(envName, names, peek)) == PeekedSum(names, peek)
  {
    if |names| > 0 {
      var init := names[..|names| - 1];
      var q := names[|names| - 1];
      assert AllSucceed(init, peek) by {
        forall j | 0 <= j < |init| ensures peek(init[j]).Success? { assert init[j] == names[j]; }
      }
      CallsCarryEveryRecord(envName, init, peek);
      var before := Calls(envName, init, peek);
      if |peek(q).value| > 0 {
        assert (before + [SinkCall(envName, q, peek(q).value)])[..|before|] == before;
      } else {
        assert before + [] == before;
      }
    }
  }

  /**
   * One run. An exception from discovery or from a peek ends the run: the
   * sink invocations made before it stand, and no later queue is peeked.
   */
  method Run<S, V, L>(analyser: Analyser<S, V, L>, discover: Result<seq<string>, string>, peek: Peek)
    returns (r: RunOutcome)
    ensures discover.Failure? ==> r.peeked == [] && r.sinkCalls == [] && r.failure == Some(discover.error)
    ensures discover.Success? ==>
      var names, k := discover.value, FirstFailure(discover.value, peek);
      && r.sinkCalls == Calls(analyser.config.envName, names[..k], peek)
      && (r.failure.None? <==> k == |names|)
      && (k < |names| ==> r.peeked == names[..k + 1] && r.failure == Some(peek(names[k]).error))
      && (k == |names| ==> r.peeked == names && r.total == WrapInt32(PeekedSum(names, peek)))
  {
    var totalMessages := 0;
    if discover.Failure? {
      return RunOutcome([], [], totalMessages, Some(discover.error));
    }
    var names := discover.value;
    var envName := analyser.config.envName;
    var peeked: seq<string> := [];
    var calls: seq<SinkCall> := [];
    var i := 0;
    while i < |names|
      invariant 0 <= i <= |names|
      invariant i <= FirstFailure(names, peek)
      invariant AllSucceed(names[..i], peek)
      invariant peeked == names[..i]
      invariant calls == Calls(envName, names[..i], peek)
      invariant totalMessages == WrapInt32(PeekedSum(names[..i], peek))
    {
      var queueName := names[i];
      peeked := peeked + [queueName];
      var peekedMessages := peek(queueName);
      if peekedMessages.Failure? {
        FirstFailureAt(names, peek, i);
        return RunOutcome(peeked, calls, totalMessages, Some(peekedMessages.error));
      }
      assert names[..i + 1][..i] == names[..i];
      WrapAbsorbs(PeekedSum(names[..i], peek), |peekedMessages.value|);
      totalMessages := WrapInt32(totalMessages + |peekedMessages.value|);
      if |peekedMessages.value| > 0 {
        calls := calls + [SinkCall(envName, queueName, peekedMessages.value)];
      }
      i := i + 1;
      FirstFailurePast(names, peek, i);
    }
    assert names[..i] == names;
    return RunOutcome(peeked, calls, totalMessages, None);
  }

  /** A failing peek right after a run of successes is the first failure. */
  lemma FirstFailureAt(names: seq<string>, peek: Peek, i: nat)
    requires i < |names| && AllSucceed(names[..i], peek) && peek(names[i]).Failure?
    ensures FirstFailure(names, peek) == i
  {
    var f := FirstFailure(names, peek);
    forall j | 0 <= j < i ensures peek(names[j]).Success? {
      assert names[..i][j] == names[j];
    }
    forall j | 0 <= j < f ensures peek(names[j]).Success? {
      assert names[..f][j] == names[j];
    }
  }

  /** Successes up to `i` put the first failure at or beyond `i`. */
  lemma FirstFailurePast(names: seq<string>, peek: Peek, i: nat)
    requires i <= |names| && AllSucceed(names[..i], peek)
    ensures i <= FirstFailure(names, peek)
  {
    forall j | 0 <= j < i ensures peek(names[j]).Success? {
      assert names[..i][j] == names[j];
    }
  }
}
