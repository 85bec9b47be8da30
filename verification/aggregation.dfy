/**
 * The LINQ `group ... by` in `laDataSink.SinkMessages`: group the records of
 * one queue by (ProcessingEndpoint, OriginatingEndpoint, EnclosedMessageTypes,
 * ExceptionType) and count each group; groups come out in first-seen order.
 */
module Aggregation {
  import opened Messages

  /** The grouping key; two records belong together exactly when their keys are equal. */
  datatype GroupKey = GroupKey(
    processingEndpoint: string,
    originatingEndpoint: string,
    enclosedMessageTypes: string,
    exceptionType: string)

  function KeyOf(m: MessageModel): GroupKey
  {
    GroupKey(m.processingEndpoint, m.originatingEndpoint, m.enclosedMessageTypes, m.exceptionType)
  }

  /** One row sent to Log Analytics: the anonymous type the query selects. */
  datatype Summary = Summary(
    environment: string,
    queue: string,
    processingEndpoint: string,
    originatingEndpoint: string,
    enclosedMessageTypes: string,
    exceptionType: string,
    count: nat)

  function RowKey(s: Summary): GroupKey
  {
    GroupKey(s.processingEndpoint, s.originatingEndpoint, s.enclosedMessageTypes, s.exceptionType)
  }

  function RowKeys(rows: seq<Summary>): (ks: seq<GroupKey>)
    ensures |ks| == |rows|
    ensures forall i :: 0 <= i < |rows| ==> ks[i] == RowKey(rows[i])
  {
    seq(|rows|, i requires 0 <= i < |rows| => RowKey(rows[i]))
  }

  /** A group under construction. */
  datatype Bucket = Bucket(key: GroupKey, count: nat)

  function KeysOf(t: seq<Bucket>): (ks: seq<GroupKey>)
    ensures |ks| == |t|
    ensures forall i :: 0 <= i < |t| ==> ks[i] == t[i].key
  {
    seq(|t|, i requires 0 <= i < |t| => t[i].key)
  }

  function KeysOfRecords(ms: seq<MessageModel>): (ks: seq<GroupKey>)
    ensures |ks| == |ms|
    ensures forall i :: 0 <= i < |ms| ==> ks[i] == KeyOf(ms[i])
  {
    seq(|ms|, i requires 0 <= i < |ms| => KeyOf(ms[i]))
  }

  function Sum(t: seq<Bucket>): nat
  {
    if |t| == 0 then 0 else t[0].count + Sum(t[1..])
  }

  function SumCounts(rows: seq<Summary>): nat
  {
    if |rows| == 0 then 0 else rows[0].count + SumCounts(rows[1..])
  }

  predicate Distinct(s: seq<GroupKey>)
  {
    forall i, j :: 0 <= i < j < |s| ==> s[i] != s[j]
  }

  /** Keys in order of first occurrence: the order LINQ's `GroupBy` yields its groups. */
  function FirstSeen(keys: seq<GroupKey>): (r: seq<GroupKey>)
    ensures |r| <= |keys|
  {
    if |keys| == 0 then []
    else
      var init := FirstSeen(keys[..|keys| - 1]);
      if keys[|keys| - 1] in init then init else init + [keys[|keys| - 1]]
  }

  /** Count one more record with key `k`: bump its group, or open a new one at the end. */
  function Bump(t: seq<Bucket>, k: GroupKey): seq<Bucket>
  {
    if |t| == 0 then [Bucket(k, 1)]
    else if t[0].key == k then [t[0].(count := t[0].count + 1)] + t[1..]
    else [t[0]] + Bump(t[1..], k)
  }

  /** The groups of `keys`, counted left to right. */
  function Tally(keys: seq<GroupKey>): seq<Bucket>
  {
    if |keys| == 0 then []
    else Bump(Tally(keys[..|keys| - 1]), keys[|keys| - 1])
  }

  /** `SinkMessages`' query: one row per group, tagged with the environment and queue. */
  function Aggregate(messages: seq<MessageModel>, envName: string, queueName: string): (rows: seq<Summary>)
    ensures |rows| <= |messages|
    ensures forall i :: 0 <= i < |rows| ==> rows[i].environment == envName && rows[i].queue == queueName
  {
    var t := Tally(KeysOfRecords(messages));
    TallyIsGrouping(KeysOfRecords(messages));
    seq(|t|, i requires 0 <= i < |t| =>
      Summary(envName, queueName, t[i].key.processingEndpoint, t[i].key.originatingEndpoint,
              t[i].key.enclosedMessageTypes, t[i].key.exceptionType, t[i].count))
  }

  // ---------------------------------------------------------------------------
  // Proofs

  /** Bumping a key counts one more record for it and changes no other group. */
  lemma BumpShape(t: seq<Bucket>, k: GroupKey)
    requires Distinct(KeysOf(t))
    ensures KeysOf(Bump(t, k)) == if k in KeysOf(t) then KeysOf(t) else KeysOf(t) + [k]
    ensures Sum(Bump(t, k)) == Sum(t) + 1
    ensures forall i :: 0 <= i < |t| ==>
      Bump(t, k)[i].count == t[i].count + (if t[i].key == k then 1 else 0)
    ensures k !in KeysOf(t) ==> Bump(t, k)[|t|].count == 1
  {
    BumpKeys(t, k);
    BumpSum(t, k);
    BumpCounts(t, k);
  }

  lemma {:induction false} DistinctTail(t: seq<Bucket>)
    requires |t| > 0 && Distinct(KeysOf(t))
    ensures Distinct(KeysOf(t[1..]))
    ensures forall i :: 0 < i < |t| ==> t[i].key != t[0].key
  {
    forall i, j | 0 <= i < j < |t[1..]| ensures KeysOf(t[1..])[i] != KeysOf(t[1..])[j] {
      assert KeysOf(t)[i + 1] != KeysOf(t)[j + 1];
    }
    forall i | 0 < i < |t| ensures t[i].key != t[0].key {
      assert KeysOf(t)[0] != KeysOf(t)[i];
    }
  }

  lemma BumpKeys(t: seq<Bucket>, k: GroupKey)
    requires Distinct(KeysOf(t))
    ensures KeysOf(Bump(t, k)) == if k in KeysOf(t) then KeysOf(t) else KeysOf(t) + [k]
  {
    if k in KeysOf(t) {
      var j :| 0 <= j < |t| && KeysOf(t)[j] == k;
      forall i | 0 <= i < j ensures t[i].key != k {
        assert KeysOf(t)[i] != KeysOf(t)[j];
      }
      BumpOld(t, k, j);
      assert KeysOf(Bump(t, k)) == KeysOf(t);
    } else {
      BumpNew(t, k);
      assert KeysOf(Bump(t, k)) == KeysOf(t) + [k];
    }
  }

  lemma {:induction false} BumpSum(t: seq<Bucket>, k: GroupKey)
    ensures Sum(Bump(t, k)) == Sum(t) + 1
  {
    if |t| > 0 && t[0].key != k {
      BumpSum(t[1..], k);
    } else if |t| > 0 {
      assert Bump(t, k)[1..] == t[1..];
    }
  }

  lemma BumpCounts(t: seq<Bucket>, k: GroupKey)
    requires Distinct(KeysOf(t))
    ensures |Bump(t, k)| >= |t|
    ensures forall i :: 0 <= i < |t| ==>
      Bump(t, k)[i].count == t[i].count + (if t[i].key == k then 1 else 0)
    ensures k !in KeysOf(t) ==> |Bump(t, k)| == |t| + 1 && Bump(t, k)[|t|].count == 1
  {
    if k in KeysOf(t) {
      var j :| 0 <= j < |t| && KeysOf(t)[j] == k;
      forall i | 0 <= i < j ensures t[i].key != k {
        assert KeysOf(t)[i] != KeysOf(t)[j];
      }
      forall i | j < i < |t| ensures t[i].key != k {
        assert KeysOf(t)[j] != KeysOf(t)[i];
      }
      BumpOld(t, k, j);
    } else {
      BumpNew(t, k);
    }
  }

  /** A new key opens a group of one at the end. */
  lemma {:induction false} BumpNew(t: seq<Bucket>, k: GroupKey)
    requires k !in KeysOf(t)
    ensures Bump(t, k) == t + [Bucket(k, 1)]
  {
    if |t| > 0 {
      assert KeysOf(t)[0] == t[0].key;
      assert k !in KeysOf(t[1..]) by {
        forall i | 0 <= i < |t| - 1 ensures KeysOf(t[1..])[i] != k { assert KeysOf(t)[i + 1] == t[i + 1].key; }
      }
      BumpNew(t[1..], k);
      assert t == [t[0]] + t[1..];
    }
  }

  /** A known key, first found at `j`, bumps that group in place. */
  lemma {:induction false} BumpOld(t: seq<Bucket>, k: GroupKey, j: nat)
    requires j < |t| && t[j].key == k
    requires forall i :: 0 <= i < j ==> t[i].key != k
    ensures Bump(t, k) == t[j := t[j].(count := t[j].count + 1)]
  {
    if j > 0 {
      BumpOld(t[1..], k, j - 1);
      assert t == [t[0]] + t[1..];
    }
  }

  lemma {:induction false} FirstSeenMembers(keys: seq<GroupKey>, x: GroupKey)
    ensures x in FirstSeen(keys) <==> x in keys
  {
    if |keys| > 0 {
      FirstSeenMembers(keys[..|keys| - 1], x);
      assert keys == keys[..|keys| - 1] + [keys[|keys| - 1]];
    }
  }

  /** The invariant of the counting: groups in first-seen order, distinct, each counting its records. */
  predicate GroupsOf(t: seq<Bucket>, keys: seq<GroupKey>)
  {
    && KeysOf(t) == FirstSeen(keys)
    && Distinct(KeysOf(t))
    && (forall i :: 0 <= i < |t| ==> t[i].count == multiset(keys)[t[i].key] && t[i].count >= 1)
    && Sum(t) == |keys|
  }

  lemma {:induction false} TallyIsGrouping(keys: seq<GroupKey>)
    ensures GroupsOf(Tally(keys), keys)
  {
    if |keys| > 0 {
      var init := keys[..|keys| - 1];
      assert keys == init + [keys[|keys| - 1]];
      TallyIsGrouping(init);
      GroupsStep(Tally(init), init, keys[|keys| - 1]);
    }
  }

  lemma GroupsStep(t: seq<Bucket>, init: seq<GroupKey>, k: GroupKey)
    requires GroupsOf(t, init)
    ensures GroupsOf(Bump(t, k), init + [k])
  {
    BumpSum(t, k);
    GroupsStepKeys(t, init, k);
    GroupsStepCounts(t, init, k);
  }

  lemma GroupsStepKeys(t: seq<Bucket>, init: seq<GroupKey>, k: GroupKey)
    requires KeysOf(t) == FirstSeen(init) && Distinct(KeysOf(t))
    ensures KeysOf(Bump(t, k)) == FirstSeen(init + [k]) && Distinct(KeysOf(Bump(t, k)))
  {
    var keys := init + [k];
    assert keys[..|keys| - 1] == init;
    BumpKeys(t, k);
    if k !in KeysOf(t) {
      var ks := KeysOf(t) + [k];
      forall i, j | 0 <= i < j < |ks| ensures ks[i] != ks[j] {
        if j < |ks| - 1 {
          assert ks[i] == KeysOf(t)[i] && ks[j] == KeysOf(t)[j];
        }
      }
    }
  }

  lemma GroupsStepCounts(t: seq<Bucket>, init: seq<GroupKey>, k: GroupKey)
    requires GroupsOf(t, init)
    ensures var b := Bump(t, k);
      forall i :: 0 <= i < |b| ==> b[i].count == multiset(init + [k])[b[i].key] && b[i].count >= 1
  {
    var keys := init + [k];
    BumpKeys(t, k);
    BumpCounts(t, k);
    FirstSeenMembers(init, k);
    var b := Bump(t, k);
    assert forall x :: multiset(keys)[x] == multiset(init)[x] + (if x == k then 1 else 0);
    forall i | 0 <= i < |b|
      ensures b[i].count == multiset(keys)[b[i].key] && b[i].count >= 1
    {
      if i < |t| {
        assert b[i].key == KeysOf(b)[i] == KeysOf(t)[i] == t[i].key;
      } else {
        assert b[i].key == KeysOf(b)[i] == k;
      }
    }
  }

  lemma {:induction false} SumCountsOfRows(t: seq<Bucket>, rows: seq<Summary>)
    requires |rows| == |t|
    requires forall i :: 0 <= i < |t| ==> rows[i].count == t[i].count
    ensures SumCounts(rows) == Sum(t)
  {
    if |t| > 0 {
      SumCountsOfRows(t[1..], rows[1..]);
    }
  }

  /** No record is dropped or counted twice: the counts add up to the number of records. */
  lemma AggregateConservesCount(messages: seq<MessageModel>, envName: string, queueName: string)
    ensures SumCounts(Aggregate(messages, envName, queueName)) == |messages|
  {
    var keys := KeysOfRecords(messages);
    TallyIsGrouping(keys);
    SumCountsOfRows(Tally(keys), Aggregate(messages, envName, queueName));
  }

  /**
   * The groups have pairwise distinct keys, in first-seen order; each group
   * counts exactly the records whose key is its own, so every count is at
   * least one.
   */
  lemma AggregateGroups(messages: seq<MessageModel>, envName: string, queueName: string)
    ensures var rows := Aggregate(messages, envName, queueName);
      && (forall i, j :: 0 <= i < j < |rows| ==> RowKey(rows[i]) != RowKey(rows[j]))
      && (forall i :: 0 <= i < |rows| ==>
            rows[i].count == multiset(KeysOfRecords(messages))[RowKey(rows[i])] && rows[i].count >= 1)
      && RowKeys(rows) == FirstSeen(KeysOfRecords(messages))
  {
    var keys := KeysOfRecords(messages);
    TallyIsGrouping(keys);
    var t := Tally(keys);
    var rows := Aggregate(messages, envName, queueName);
    assert RowKeys(rows) == KeysOf(t);
  }

  /**
   * A key has a group exactly when some record carries it; in particular every
   * record falls into the group whose key equals its own fields.
   */
  lemma AggregateCovers(messages: seq<MessageModel>, envName: string, queueName: string, k: GroupKey)
    ensures k in RowKeys(Aggregate(messages, envName, queueName)) <==> k in KeysOfRecords(messages)
    ensures forall m :: m in messages ==> KeyOf(m) in RowKeys(Aggregate(messages, envName, queueName))
  {
    var keys := KeysOfRecords(messages);
    TallyIsGrouping(keys);
    var rows := Aggregate(messages, envName, queueName);
    assert RowKeys(rows) == KeysOf(Tally(keys));
    FirstSeenMembers(keys, k);
    forall m | m in messages ensures KeyOf(m) in RowKeys(rows) {
      var j :| 0 <= j < |messages| && messages[j] == m;
      assert keys[j] == KeyOf(m);
      FirstSeenMembers(keys, KeyOf(m));
    }
  }
}
