/**
 * `SvcBusService.GetErrorQueuesAsync`: list every queue and keep, in listing
 * order, the names the selection pattern matches.
 */
module QueueDiscovery {
  import opened Wrappers

  /**
   * The compiled selection pattern's `IsMatch`: `Success(b)` when it decides
   * within its time budget, `Failure(e)` when it throws
   * (`RegexMatchTimeoutException`), which nothing here catches.
   */
  type Matcher = string -> Result<bool, string>

  /**
   * The names `isMatch` accepts, in order; fails at the first name whose match
   * throws. A selected name is a listed name that matched; a failure is the
   * exception of the first listed name whose match throws.
   */
  function SelectQueues(names: seq<string>, isMatch: Matcher): (r: Result<seq<string>, string>)
    ensures r.Success? <==> AllDecided(names, isMatch)
    ensures r.Success? ==> |r.value| <= |names| && forall x :: x in r.value ==> x in names && Accepts(isMatch, x)
    ensures r.Failure? ==>
      exists i :: 0 <= i < |names| && AllDecided(names[..i], isMatch) && isMatch(names[i]) == Failure(r.error)
  {
    if |names| == 0 then Success([])
    else
      var last := names[|names| - 1];
      var prefix := names[..|names| - 1];
      assert forall i :: 0 <= i <= |prefix| ==> names[..i] == prefix[..i];
      assert names[..|prefix|] == prefix;
      var init :- SelectQueues(prefix, isMatch);
      var keep :- isMatch(last);
      Success(if keep then init + [last] else init)
  }

  /** Plain order-preserving filter: the reference the selection is measured against. */
  function Filter(names: seq<string>, keep: string -> bool): (r: seq<string>)
    ensures |r| <= |names|
  {
    if |names| == 0 then []
    else Filter(names[..|names| - 1], keep) + (if keep(names[|names| - 1]) then [names[|names| - 1]] else [])
  }

  /** No name's match throws. */
  predicate AllDecided(names: seq<string>, isMatch: Matcher)
  {
    forall i :: 0 <= i < |names| ==> isMatch(names[i]).Success?
  }

  /** The names whose match succeeds with `true`. */
  predicate Accepts(isMatch: Matcher, name: string)
  {
    isMatch(name) == Success(true)
  }

  /** `Accepts` as a predicate value, so that every mention denotes the same function. */
  function AcceptedBy(isMatch: Matcher): string -> bool
  {
    n => Accepts(isMatch, n)
  }

  lemma {:induction false} FilterAppend(a: seq<string>, b: seq<string>, keep: string -> bool)
    ensures Filter(a + b, keep) == Filter(a, keep) + Filter(b, keep)
    decreases |b|
  {
    if |b| == 0 {
      assert a + b == a;
    } else {
      assert (a + b)[..|a + b| - 1] == a + b[..|b| - 1];
      FilterAppend(a, b[..|b| - 1], keep);
    }
  }

  /** Exactly the matching names survive: membership in both directions. */
  lemma {:induction false} FilterMembers(names: seq<string>, keep: string -> bool, x: string)
    ensures x in Filter(names, keep) <==> x in names && keep(x)
  {
    if |names| > 0 {
      FilterMembers(names[..|names| - 1], keep, x);
      assert names == names[..|names| - 1] + [names[|names| - 1]];
    }
  }

  /** Filtering again removes nothing more. */
  lemma {:induction false} FilterIdempotent(names: seq<string>, keep: string -> bool)
    ensures Filter(Filter(names, keep), keep) == Filter(names, keep)
  {
    if |names| > 0 {
      var init := names[..|names| - 1];
      var last := names[|names| - 1];
      FilterIdempotent(init, keep);
      var tail := if keep(last) then [last] else [];
      FilterAppend(Filter(init, keep), tail, keep);
      if keep(last) {
        assert Filter(tail, keep) == Filter([], keep) + [last];
      } else {
        assert Filter(tail, keep) == [];
      }
    }
  }

  /**
   * When every match decides, discovery returns exactly the filter of the
   * listing by the pattern; when some match throws, discovery throws the
   * first such exception.
   */
  lemma {:induction false} SelectIsFilter(names: seq<string>, isMatch: Matcher)
    ensures AllDecided(names, isMatch) ==>
      SelectQueues(names, isMatch) == Success(Filter(names, AcceptedBy(isMatch)))
    ensures !AllDecided(names, isMatch) <==> SelectQueues(names, isMatch).Failure?
  {
    if |names| > 0 {
      var init := names[..|names| - 1];
      SelectIsFilter(init, isMatch);
      if AllDecided(names, isMatch) {
        assert AllDecided(init, isMatch);
      }
      if !AllDecided(init, isMatch) {
        var i :| 0 <= i < |init| && !isMatch(init[i]).Success?;
        assert names[i] == init[i];
      } else if AllDecided(names, isMatch) {
        var keep := AcceptedBy(isMatch);
        var last := names[|names| - 1];
        assert isMatch(last).Success?;
        assert SelectQueues(init, isMatch) == Success(Filter(init, keep));
        assert Filter(names, keep) == Filter(init, keep) + (if keep(last) then [last] else []);
        assert keep(last) == isMatch(last).value;
        assert Filter(init, keep) + [] == Filter(init, keep);
        assert SelectQueues(names, isMatch)
            == Success(if isMatch(last).value then Filter(init, keep) + [last] else Filter(init, keep));
      } else {
        assert !isMatch(names[|names| - 1]).Success?;
      }
    }
  }

  /**
   * What `GetQueuesAsync` enumerates: the queue names it yields, in order,
   * and the exception that ends the enumeration early, if any.
   */
  datatype Listing = Listing(names: seq<string>, fault: Option<string>)

  /**
   * The outcome of the loop over a listing: each yielded name is matched in
   * turn, so a throwing match wins over a later enumeration fault.
   */
  function Discovered(listing: Listing, isMatch: Matcher): Result<seq<string>, string>
  {
    var selected :- SelectQueues(listing.names, isMatch);
    if listing.fault.Some? then Failure(listing.fault.value) else Success(selected)
  }

  /**
   * `GetErrorQueuesAsync`. `admin` is the construction of the administration
   * client from the connection string, and `pattern` the construction of the
   * selection `Regex` (an invalid or null pattern throws); both happen before
   * anything is enumerated. The loop adds each name the pattern matches and
   * stops on the first match that throws or on an enumeration fault.
   */
  method GetErrorQueues(admin: Result<Listing, string>, pattern: Result<Matcher, string>)
    returns (r: Result<seq<string>, string>)
    ensures admin.Failure? ==> r == Failure(admin.error)
    ensures admin.Success? && pattern.Failure? ==> r == Failure(pattern.error)
    ensures admin.Success? && pattern.Success? ==> r == Discovered(admin.value, pattern.value)
    ensures r.Success? <==>
      admin.Success? && pattern.Success? && AllDecided(admin.value.names, pattern.value) && admin.value.fault.None?
    ensures r.Success? ==> r.value == Filter(admin.value.names, AcceptedBy(pattern.value))
  {
    if admin.Failure? {
      return Failure(admin.error);
    }
    if pattern.Failure? {
      return Failure(pattern.error);
    }
    var isMatch := pattern.value;
    var names := admin.value.names;
    SelectIsFilter(names, isMatch);
    var errorQueues: seq<string> := [];
    var i := 0;
    while i < |names|
      invariant 0 <= i <= |names|
      invariant SelectQueues(names[..i], isMatch) == Success(errorQueues)
    {
      assert names[..i + 1][..i] == names[..i];
      var matched := isMatch(names[i]);
      if matched.Failure? {
        assert SelectQueues(names[..i + 1], isMatch) == Failure(matched.error);
        PrefixFailurePersists(names, isMatch, i + 1);
        return Failure(matched.error);
      }
      if matched.value {
        errorQueues := errorQueues + [names[i]];
      }
      i := i + 1;
    }
    assert names[..i] == names;
    if admin.value.fault.Some? {
      return Failure(admin.value.fault.value);
    }
    return Success(errorQueues);
  }

  /** Once a prefix's selection throws, so does the whole listing's, with the same exception. */
  lemma {:induction false} PrefixFailurePersists(names: seq<string>, isMatch: Matcher, k: nat)
    requires k <= |names|
    requires SelectQueues(names[..k], isMatch).Failure?
    ensures SelectQueues(names, isMatch) == SelectQueues(names[..k], isMatch)
    decreases |names| - k
  {
    if k < |names| {
      assert names[..k + 1][..k] == names[..k];
      PrefixFailurePersists(names, isMatch, k + 1);
    } else {
      assert names[..k] == names;
    }
  }
}
