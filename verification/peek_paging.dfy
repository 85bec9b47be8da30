/**
 * `SvcBusService.PeekMessages`: page through a queue without consuming it,
 * format every peeked message, and keep the records — all of them in a
 * DEBUG build, only every `NotifyUIBatchSize`-th one in a Release build.
 */
module PeekPaging {
  import opened Wrappers
  import opened Messages
  import opened FieldExtraction
  import opened Arithmetic

  /**
   * What one `PeekMessagesAsync(batchSize)` call gives back: null, a list of
   * messages (possibly empty), or an exception.
   */
  datatype Page = NullPage | Messages(msgs: seq<ReceivedMessage>) | Fault(error: string)

  /** The message of the `DivideByZeroException` that `% 0` throws. */
  const DivideByZeroMessage := "Attempted to divide by zero."

  /** The message of the `NullReferenceException` that reading `.Count` of null throws. */
  const NullReferenceMessage := "Object reference not set to an instance of an object."

  /**
   * A DEBUG build logs `peekedMessages.Count` of the first page before the
   * null-safe loop test, so a null first page throws there.
   */
  predicate FirstPageNull(pages: seq<Page>, debug: bool)
  {
    debug && |pages| > 0 && pages[0].NullPage?
  }

  /** `peekedMessages?.Count > 0`: the loop goes on only for a non-empty page. */
  predicate Continues(p: Page)
  {
    p.Messages? && |p.msgs| > 0
  }

  /**
   * Index of the fetch that ends the loop. `pages` lists the successive
   * results of the receiver; fetching past its end gives an empty page.
   */
  function StopIndex(pages: seq<Page>): (k: nat)
    ensures k <= |pages|
    ensures forall i :: 0 <= i < k ==> Continues(pages[i])
    ensures k < |pages| ==> !Continues(pages[k])
  {
    if |pages| == 0 || !Continues(pages[0]) then 0
    else 1 + StopIndex(pages[1..])
  }

  /** The messages of `pages`, in order. */
  function Flatten(pages: seq<Page>): seq<ReceivedMessage>
  {
    if |pages| == 0 then []
    else Flatten(pages[..|pages| - 1]) + (if pages[|pages| - 1].Messages? then pages[|pages| - 1].msgs else [])
  }

  /** Every message the loop sees: those of the pages fetched before the stopping one. */
  function Peeked(pages: seq<Page>): seq<ReceivedMessage>
  {
    Flatten(pages[..StopIndex(pages)])
  }

  /** The exception of the stopping fetch, if it threw. */
  function StopFault(pages: seq<Page>): Option<string>
  {
    var k := StopIndex(pages);
    if k < |pages| && pages[k].Fault? then Some(pages[k].error) else None
  }

  function FormatAll(ms: seq<ReceivedMessage>, debug: bool, codecs: Codecs): (r: seq<MessageModel>)
    ensures |r| == |ms|
    ensures forall i :: 0 <= i < |ms| ==> r[i] == FormatMsgToLog(ms[i], debug, codecs)
  {
    seq(|ms|, i requires 0 <= i < |ms| => FormatMsgToLog(ms[i], debug, codecs))
  }

  /**
   * `totalMessages % notifyBatchSize == 0`. C#'s `%` truncates toward zero
   * and Dafny's is Euclidean, but the two agree on whether the remainder is
   * zero, whatever the signs of the count and the divisor.
   */
  predicate DivisibleBy(count: int, n: int)
    requires n != 0
  {
    count % n == 0
  }

  /**
   * The elements whose 1-based position, as the 32-bit counter holds it,
   * is a multiple of `n`.
   */
  function EveryNth<T>(xs: seq<T>, n: int): seq<T>
    requires n != 0
  {
    if |xs| == 0 then []
    else EveryNth(xs[..|xs| - 1], n) + (if DivisibleBy(WrapInt32(|xs|), n) then [xs[|xs| - 1]] else [])
  }

  /** The records the loop keeps out of the formatted ones: all, or every `n`-th. */
  function Kept<T>(xs: seq<T>, n: int, keepAll: bool): seq<T>
    requires n != 0
  {
    if keepAll then xs else EveryNth(xs, n)
  }

  /**
   * `PeekMessages` over the receiver results `pages`, as written. A DEBUG
   * build throws at once on a null first page, whose count it logs. Otherwise
   * it fetches until a page is null or empty; an exception from a fetch, or a zero
   * `notifyBatchSize` once a message has been counted, ends it with that
   * exception. A DEBUG build keeps every record; in a Release build the
   * append is the body of the `%` test, so only every `notifyBatchSize`-th
   * record is kept.
   */
  method PeekMessages(pages: seq<Page>, notifyBatchSize: int, debug: bool, codecs: Codecs)
    returns (r: Result<seq<MessageModel>, string>)
    ensures FirstPageNull(pages, debug) ==> r == Failure(NullReferenceMessage)
    ensures notifyBatchSize == 0 && |Peeked(pages)| > 0 ==> r == Failure(DivideByZeroMessage)
    ensures (notifyBatchSize != 0 || |Peeked(pages)| == 0) && StopFault(pages).Some? ==>
      r == Failure(StopFault(pages).value)
    ensures r.Success? <==>
      !FirstPageNull(pages, debug) && StopFault(pages).None? && (notifyBatchSize != 0 || |Peeked(pages)| == 0)
    ensures r.Success? && debug ==> r.value == FormatAll(Peeked(pages), debug, codecs)
    ensures r.Success? && !debug && notifyBatchSize != 0 ==>
      r.value == EveryNth(FormatAll(Peeked(pages), debug, codecs), notifyBatchSize)
    ensures r.Success? && notifyBatchSize == 0 ==> r.value == []
  {
    r := PeekLoop(pages, notifyBatchSize, debug, debug, codecs);
  }

  /**
   * `PeekMessages` with the append outside the `%` test, as the layout of the
   * loop indicates: both builds keep every record, in page order. The DEBUG
   * log of the first page's count stays, and with it the throw on a null
   * first page.
   */
  method PeekMessagesIntended(pages: seq<Page>, notifyBatchSize: int, debug: bool, codecs: Codecs)
    returns (r: Result<seq<MessageModel>, string>)
    ensures r.Success? <==>
      !FirstPageNull(pages, debug) && StopFault(pages).None? && (notifyBatchSize != 0 || |Peeked(pages)| == 0)
    ensures r.Failure? ==>
      r.error == (if FirstPageNull(pages, debug) then NullReferenceMessage
                  else if StopFault(pages).Some? && (notifyBatchSize != 0 || |Peeked(pages)| == 0)
                  then StopFault(pages).value else DivideByZeroMessage)
    ensures r.Success? ==> r.value == FormatAll(Peeked(pages), debug, codecs)
  {
    r := PeekLoop(pages, notifyBatchSize, true, debug, codecs);
  }

  /**
   * The paging loop; `keepAll` says whether every record is appended or
   * only those whose running count `notifyBatchSize` divides.
   */
  method PeekLoop(pages: seq<Page>, notifyBatchSize: int, keepAll: bool, debug: bool, codecs: Codecs)
    returns (r: Result<seq<MessageModel>, string>)
    ensures FirstPageNull(pages, debug) ==> r == Failure(NullReferenceMessage)
    ensures notifyBatchSize == 0 && |Peeked(pages)| > 0 ==> r == Failure(DivideByZeroMessage)
    ensures (notifyBatchSize != 0 || |Peeked(pages)| == 0) && StopFault(pages).Some? ==>
      r == Failure(StopFault(pages).value)
    ensures r.Success? <==>
      !FirstPageNull(pages, debug) && StopFault(pages).None? && (notifyBatchSize != 0 || |Peeked(pages)| == 0)
    ensures r.Success? && notifyBatchSize != 0 ==>
      r.value == Kept(FormatAll(Peeked(pages), debug, codecs), notifyBatchSize, keepAll)
    ensures r.Success? && notifyBatchSize == 0 ==> r.value == [] && Peeked(pages) == []
  {
    if FirstPageNull(pages, debug) {
      return Failure(NullReferenceMessage);
    }
    var totalMessages := 0;
    var formatted: seq<MessageModel> := [];
    var k := 0;
    ghost var stop := StopIndex(pages);
    while k < |pages| && Continues(pages[k])
      invariant k <= stop
      invariant totalMessages == WrapInt32(|Flatten(pages[..k])|)
      invariant notifyBatchSize == 0 ==> Flatten(pages[..k]) == [] && formatted == []
      invariant notifyBatchSize != 0 ==>
        formatted == Kept(FormatAll(Flatten(pages[..k]), debug, codecs), notifyBatchSize, keepAll)
    {
      var ms := pages[k].msgs;
      var divideByZero;
      totalMessages, formatted, divideByZero :=
        FormatPage(ms, Flatten(pages[..k]), totalMessages, formatted, notifyBatchSize, keepAll, debug, codecs);
      if divideByZero {
        PeekedHasPrefix(pages, k);
        return Failure(DivideByZeroMessage);
      }
      FlattenStep(pages, k);
      k := k + 1;
    }
    assert k == stop;
    if k < |pages| && pages[k].Fault? {
      return Failure(pages[k].error);
    }
    return Success(formatted);
  }

  /**
   * The inner loop over one page: count and format each message and keep it
   * as `keepAll` decides. The counter is a C# `int`, so it wraps past
   * `int.MaxValue`. With a zero `notifyBatchSize` the first message
   * already throws.
   */
  method FormatPage(ms: seq<ReceivedMessage>, ghost before: seq<ReceivedMessage>, total0: int,
                    formatted0: seq<MessageModel>, notifyBatchSize: int, keepAll: bool, debug: bool, codecs: Codecs)
    returns (totalMessages: int, formatted: seq<MessageModel>, divideByZero: bool)
    requires total0 == WrapInt32(|before|)
    requires notifyBatchSize == 0 ==> before == [] && formatted0 == []
    requires notifyBatchSize != 0 ==>
      formatted0 == Kept(FormatAll(before, debug, codecs), notifyBatchSize, keepAll)
    ensures divideByZero <==> notifyBatchSize == 0 && |ms| > 0
    ensures !divideByZero ==> totalMessages == WrapInt32(|before| + |ms|)
    ensures !divideByZero && notifyBatchSize == 0 ==> totalMessages == 0 && formatted == []
    ensures !divideByZero && notifyBatchSize != 0 ==>
      formatted == Kept(FormatAll(before + ms, debug, codecs), notifyBatchSize, keepAll)
  {
    totalMessages, formatted := total0, formatted0;
    var j := 0;
    assert before + ms[..0] == before;
    while j < |ms|
      invariant j <= |ms|
      invariant totalMessages == WrapInt32(|before| + j)
      invariant notifyBatchSize == 0 ==> j == 0 && formatted == []
      invariant notifyBatchSize != 0 ==>
        formatted == Kept(FormatAll(before + ms[..j], debug, codecs), notifyBatchSize, keepAll)
    {
      var messageModel := FormatMsgToLog(ms[j], debug, codecs);
      WrapAbsorbs(|before| + j, 1);
      totalMessages := WrapInt32(totalMessages + 1);
      if notifyBatchSize == 0 {
        return totalMessages, formatted, true;
      }
      KeptStep(before, ms, j, notifyBatchSize, keepAll, debug, codecs);
      if keepAll || DivisibleBy(totalMessages, notifyBatchSize) {
        formatted := formatted + [messageModel];
      }
      j := j + 1;
    }
    assert ms[..j] == ms;
    return totalMessages, formatted, false;
  }

  lemma FlattenStep(pages: seq<Page>, k: nat)
    requires k < |pages| && pages[k].Messages?
    ensures Flatten(pages[..k + 1]) == Flatten(pages[..k]) + pages[k].msgs
  {
    assert pages[..k + 1][..k] == pages[..k];
  }

  /** One more formatted message extends the kept records by it or by nothing. */
  lemma KeptStep(before: seq<ReceivedMessage>, ms: seq<ReceivedMessage>, j: nat, n: int, keepAll: bool,
                 debug: bool, codecs: Codecs)
    requires j < |ms| && n != 0
    ensures Kept(FormatAll(before + ms[..j + 1], debug, codecs), n, keepAll)
         == Kept(FormatAll(before + ms[..j], debug, codecs), n, keepAll)
            + (if keepAll || DivisibleBy(WrapInt32(|before| + j + 1), n) then [FormatMsgToLog(ms[j], debug, codecs)] else [])
  {
    var prev := before + ms[..j];
    assert before + ms[..j + 1] == prev + [ms[j]];
    FormatAllSnoc(prev, ms[j], debug, codecs);
    KeptSnoc(FormatAll(prev, debug, codecs), FormatMsgToLog(ms[j], debug, codecs), n, keepAll);
  }

  lemma FormatAllSnoc(ms: seq<ReceivedMessage>, m: ReceivedMessage, debug: bool, codecs: Codecs)
    ensures FormatAll(ms + [m], debug, codecs) == FormatAll(ms, debug, codecs) + [FormatMsgToLog(m, debug, codecs)]
  {}

  lemma KeptSnoc<T>(xs: seq<T>, x: T, n: int, keepAll: bool)
    requires n != 0
    ensures Kept(xs + [x], n, keepAll) == Kept(xs, n, keepAll) + (if keepAll || DivisibleBy(WrapInt32(|xs| + 1), n) then [x] else [])
  {
    assert (xs + [x])[..|xs|] == xs;
  }

  /** Every message of a page before the stopping one is among the peeked messages. */
  lemma PeekedHasPrefix(pages: seq<Page>, k: nat)
    requires k < StopIndex(pages)
    ensures |Peeked(pages)| >= |Flatten(pages[..k + 1])| > 0
  {
    var stop := StopIndex(pages);
    FlattenGrows(pages[..stop], k + 1);
    assert pages[..stop][..k + 1] == pages[..k + 1];
    assert pages[..k + 1][..k] == pages[..k];
  }

  lemma {:induction false} FlattenGrows(pages: seq<Page>, k: nat)
    requires k <= |pages|
    ensures |Flatten(pages[..k])| <= |Flatten(pages)|
    decreases |pages| - k
  {
    if k < |pages| {
      assert pages[..k + 1][..k] == pages[..k];
      FlattenGrows(pages, k + 1);
    } else {
      assert pages[..k] == pages;
    }
  }

  /**
   * While the counter has not wrapped, a Release build keeps
   * `⌊count / |notifyBatchSize|⌋` of `count` records: one per complete
   * notification batch.
   */
  lemma {:induction false} EveryNthLength<T>(xs: seq<T>, n: int)
    requires n != 0
    ensures |xs| < TwoTo31 ==> |EveryNth(xs, n)| == |xs| / (if n < 0 then -n else n)
  {
    var a := if n < 0 then -n else n;
    if 0 < |xs| < TwoTo31 {
      var init := xs[..|xs| - 1];
      var m := |init|;
      EveryNthLength(init, n);
      assert WrapInt32(m + 1) == m + 1;
      assert DivisibleBy(m + 1, n) <==> (m + 1) % a == 0 by {
        assert (m + 1) % n == (m + 1) % a;
      }
      DivStep(m, a);
    }
  }

  /**
   * The as-written Release loop on one page of two messages with a
   * notification batch of two: both are peeked, no fetch fails, and only
   * the second record comes back.
   */
  lemma ReleaseDropsRecords(a: ReceivedMessage, b: ReceivedMessage, codecs: Codecs)
    ensures var pages := [Messages([a, b])];
      && Peeked(pages) == [a, b]
      && StopFault(pages) == None
      && EveryNth(FormatAll(Peeked(pages), false, codecs), 2) == [FormatMsgToLog(b, false, codecs)]
  {
    var pages := [Messages([a, b])];
    assert StopIndex(pages[1..]) == 0;
    assert StopIndex(pages) == 1;
    assert pages[..1] == pages;
    assert Flatten(pages[..0]) == [];
    var xs := FormatAll([a, b], false, codecs);
    assert xs[..1][..0] == [];
    assert EveryNth(xs[..1], 2) == [] by {
      assert WrapInt32(1) == 1;
    }
    assert WrapInt32(2) == 2;
  }

  /** With a notification batch of two or more, a Release build loses records whenever there are any. */
  lemma {:induction false} ReleaseKeepsFewer<T>(xs: seq<T>, n: int)
    requires n < -1 || n > 1
    requires |xs| > 0
    ensures |EveryNth(xs, n)| < |xs|
  {
    assert !DivisibleBy(WrapInt32(1), n);
    EveryNthSkipsFirst(xs, n);
  }

  /** The first record is kept only when `n` divides one. */
  lemma {:induction false} EveryNthSkipsFirst<T>(xs: seq<T>, n: int)
    requires n != 0 && |xs| > 0 && !DivisibleBy(WrapInt32(1), n)
    ensures |EveryNth(xs, n)| <= |xs| - 1
  {
    if |xs| > 1 {
      EveryNthSkipsFirst(xs[..|xs| - 1], n);
    }
  }

  /** Every kept record is one of the formatted records; in a Release build they are exactly those at multiples of `n`. */
  lemma {:induction false} EveryNthPositions<T>(xs: seq<T>, n: int, x: T)
    requires n != 0
    ensures x in EveryNth(xs, n) <==> exists i :: 0 <= i < |xs| && DivisibleBy(WrapInt32(i + 1), n) && xs[i] == x
  {
    if |xs| > 0 {
      var init := xs[..|xs| - 1];
      EveryNthPositions(init, n, x);
      if x in EveryNth(init, n) {
        var i :| 0 <= i < |init| && DivisibleBy(WrapInt32(i + 1), n) && init[i] == x;
        assert xs[i] == x;
      }
      if exists i :: 0 <= i < |xs| && DivisibleBy(WrapInt32(i + 1), n) && xs[i] == x {
        var i :| 0 <= i < |xs| && DivisibleBy(WrapInt32(i + 1), n) && xs[i] == x;
        if i < |init| {
          assert init[i] == x;
        }
      }
    }
  }
}
