/**
 * The wait-time estimator: given the events still holding a resource's
 * quota, the quota available now and a request, it replays the events'
 * expiries in timestamp order and reports how long until enough tokens
 * are free.
 */
module WaitEstimator {
  import opened QuotaTypes

  /** Sum of the token counts of the events in `s`. */
  function TotalTokens(s: seq<UsedQuota>): int
  {
    if s == [] then 0 else TotalTokens(s[..|s| - 1]) + s[|s| - 1].tokens
  }

  /** Sum of the token counts of the events in `s` admitted no later than `t`. */
  function TokensUpTo(s: seq<UsedQuota>, t: int): int
  {
    if s == [] then 0
    else TokensUpTo(s[..|s| - 1], t) + (if s[|s| - 1].timestamp <= t then s[|s| - 1].tokens else 0)
  }

  predicate NonNegativeTokens(s: seq<UsedQuota>)
  {
    forall e :: e in s ==> e.tokens >= 0
  }

  predicate SortedByTime(s: seq<UsedQuota>)
  {
    forall j, k :: 0 <= j < k < |s| ==> s[j].timestamp <= s[k].timestamp
  }

  /** Inserts `e` before the first event that is not earlier than it. */
  function InsertByTime(e: UsedQuota, s: seq<UsedQuota>): seq<UsedQuota>
  {
    if s == [] || e.timestamp <= s[0].timestamp then [e] + s
    else [s[0]] + InsertByTime(e, s[1..])
  }

  /** Insertion adds exactly the one event. */
  lemma {:induction false} InsertByTimePermutes(e: UsedQuota, s: seq<UsedQuota>)
    ensures multiset(InsertByTime(e, s)) == multiset(s) + multiset{e}
  {
    if s != [] && s[0].timestamp < e.timestamp {
      InsertByTimePermutes(e, s[1..]);
      assert s == [s[0]] + s[1..];
    }
  }

  /** Insertion into a time-ordered list keeps it time-ordered. */
  lemma {:induction false} InsertByTimeSorted(e: UsedQuota, s: seq<UsedQuota>)
    requires SortedByTime(s)
    ensures SortedByTime(InsertByTime(e, s))
  {
    if s == [] || e.timestamp <= s[0].timestamp {
      InsertFrontSorted(e, s);
    } else {
      var rest := InsertByTime(e, s[1..]);
      InsertByTimeSorted(e, s[1..]);
      InsertByTimePermutes(e, s[1..]);
      InsertBehindSorted(e, s, rest);
    }
  }

  lemma InsertFrontSorted(e: UsedQuota, s: seq<UsedQuota>)
    requires SortedByTime(s)
    requires s == [] || e.timestamp <= s[0].timestamp
    ensures SortedByTime([e] + s)
  {
    var r := [e] + s;
    forall j, k | 0 <= j < k < |r| ensures r[j].timestamp <= r[k].timestamp {
      if j > 0 { assert r[j] == s[j - 1] && r[k] == s[k - 1]; }
      else { assert r[k] == s[k - 1]; }
    }
  }

  lemma InsertBehindSorted(e: UsedQuota, s: seq<UsedQuota>, rest: seq<UsedQuota>)
    requires SortedByTime(s) && SortedByTime(rest)
    requires s != [] && s[0].timestamp < e.timestamp
    requires multiset(rest) == multiset(s[1..]) + multiset{e}
    ensures SortedByTime([s[0]] + rest)
  {
    var r := [s[0]] + rest;
    forall j, k | 0 <= j < k < |r| ensures r[j].timestamp <= r[k].timestamp {
      assert r[k] == rest[k - 1];
      if j > 0 {
        assert r[j] == rest[j - 1];
      } else {
        var x := rest[k - 1];
        assert x in multiset(rest);
        if x != e {
          assert x in multiset(s[1..]);
          var i :| 0 <= i < |s[1..]| && s[1..][i] == x;
          assert s[i + 1] == x;
        }
      }
    }
  }

  /** The events ordered by timestamp (a stable insertion sort). */
  function SortByTime(s: seq<UsedQuota>): seq<UsedQuota>
  {
    if s == [] then [] else InsertByTime(s[0], SortByTime(s[1..]))
  }

  /** Sorting yields a time-ordered permutation of the events. */
  lemma {:induction false} SortByTimeSortsAndPermutes(s: seq<UsedQuota>)
    ensures SortedByTime(SortByTime(s))
    ensures multiset(SortByTime(s)) == multiset(s)
  {
    if s != [] {
      SortByTimeSortsAndPermutes(s[1..]);
      InsertByTimeSorted(s[0], SortByTime(s[1..]));
      InsertByTimePermutes(s[0], SortByTime(s[1..]));
      assert s == [s[0]] + s[1..];
    }
  }

  /** The events of `s` stamped exactly `t`, in their order in `s`. */
  function AtTime(s: seq<UsedQuota>, t: int): seq<UsedQuota>
  {
    if s == [] then [] else (if s[0].timestamp == t then [s[0]] else []) + AtTime(s[1..], t)
  }

  /** Inserting an event puts it ahead of every event with the same timestamp. */
  lemma {:induction false} InsertByTimeStable(e: UsedQuota, s: seq<UsedQuota>, t: int)
    ensures AtTime(InsertByTime(e, s), t) == AtTime([e] + s, t)
    decreases |s|
  {
    if s == [] || e.timestamp <= s[0].timestamp {
    } else {
      var r := InsertByTime(e, s[1..]);
      InsertByTimeStable(e, s[1..], t);
      assert ([s[0]] + r)[1..] == r;
      assert ([e] + s[1..])[1..] == s[1..];
      assert ([e] + s)[1..] == s;
    }
  }

  /**
   * The sort is stable: events with equal timestamps keep their input
   * order. With `SortByTimeSortsAndPermutes` this determines the result
   * uniquely, as the stable sort by timestamp the estimator relies on.
   * The order matters only when reservations may be negative: then the
   * first crossing can depend on which of two simultaneous events comes first.
   */
  lemma {:induction false} SortByTimeStable(s: seq<UsedQuota>, t: int)
    ensures AtTime(SortByTime(s), t) == AtTime(s, t)
    decreases |s|
  {
    if s != [] {
      SortByTimeStable(s[1..], t);
      InsertByTimeStable(s[0], SortByTime(s[1..]), t);
      assert ([s[0]] + SortByTime(s[1..]))[1..] == SortByTime(s[1..]);
    }
  }

  /**
   * Whole seconds from `now` until an event admitted at `timestamp` is
   * released, one window later; never negative.
   */
  function ReleaseWait(timestamp: int, now: int): (w: nat)
    ensures var d := timestamp + Window - now;
            (d <= 0 ==> w == 0) &&
            (d >= 0 ==> w * MicrosPerSecond <= d < (w + 1) * MicrosPerSecond)
  {
    var d := timestamp + Window - now;
    if d <= 0 then 0 else d / MicrosPerSecond
  }

  /**
   * The estimator's loop from position `i` of the time-ordered events, with
   * `accumulated` tokens free so far: the first event whose release brings
   * the free tokens up to `request` gives the wait.
   */
  function WaitFrom(s: seq<UsedQuota>, i: nat, request: int, accumulated: int, now: int): Wait
    requires i <= |s|
    decreases |s| - i
  {
    if i == |s| then Infinite
    else if accumulated + s[i].tokens >= request then Finite(ReleaseWait(s[i].timestamp, now))
    else WaitFrom(s, i + 1, request, accumulated + s[i].tokens, now)
  }

  /** The wait for `request` tokens, given the events and the quota available now. */
  function WaitTime(usedQuotas: seq<UsedQuota>, request: int, available: int, now: int): Wait
  {
    WaitFrom(SortByTime(usedQuotas), 0, request, available, now)
  }

  /** Tokens free once the first `k + 1` events of `s` have been released. */
  function Accumulated(s: seq<UsedQuota>, available: int, k: nat): int
    requires k < |s|
  {
    available + TotalTokens(s[..k + 1])
  }

  /** Position `k` is where the free tokens first reach `request`. */
  predicate IsFirstCrossing(s: seq<UsedQuota>, available: int, request: int, k: nat)
  {
    k < |s| && Accumulated(s, available, k) >= request &&
    forall j :: 0 <= j < k ==> Accumulated(s, available, j) < request
  }

  /** The estimator's loop: sort, then accumulate until the request is met. */
  method CalculateWaitTime(usedQuotas: seq<UsedQuota>, requestTokens: int, nowAvailableQuota: int, now: int)
    returns (w: Wait)
    ensures w == WaitTime(usedQuotas, requestTokens, nowAvailableQuota, now)
  {
    var sorted := SortByTime(usedQuotas);
    var accumulated := nowAvailableQuota;
    for i := 0 to |sorted|
      invariant WaitFrom(sorted, i, requestTokens, accumulated, now) == WaitTime(usedQuotas, requestTokens, nowAvailableQuota, now)
    {
      accumulated := accumulated + sorted[i].tokens;
      if accumulated >= requestTokens {
        var d := sorted[i].timestamp + Window - now;
        // int() truncates toward zero; the result is then floored at zero
        var truncated := if d >= 0 then d / MicrosPerSecond else -((-d) / MicrosPerSecond);
        return Finite(if truncated > 0 then truncated else 0);
      }
    }
    return Infinite;
  }

  // ---------------------------------------------------------------------
  // Sums

  lemma {:induction false} TotalTokensConcat(a: seq<UsedQuota>, b: seq<UsedQuota>)
    ensures TotalTokens(a + b) == TotalTokens(a) + TotalTokens(b)
    decreases |b|
  {
    if b != [] {
      assert (a + b)[..|a + b| - 1] == a + b[..|b| - 1];
      TotalTokensConcat(a, b[..|b| - 1]);
    } else {
      assert a + b == a;
    }
  }

  lemma {:induction false} TokensUpToConcat(a: seq<UsedQuota>, b: seq<UsedQuota>, t: int)
    ensures TokensUpTo(a + b, t) == TokensUpTo(a, t) + TokensUpTo(b, t)
    decreases |b|
  {
    if b != [] {
      assert (a + b)[..|a + b| - 1] == a + b[..|b| - 1];
      TokensUpToConcat(a, b[..|b| - 1], t);
    } else {
      assert a + b == a;
    }
  }

  /** Removing position `p` of `b` splits it around that event. */
  lemma SplitAt(b: seq<UsedQuota>, p: int)
    requires 0 <= p < |b|
    ensures b == b[..p] + [b[p]] + b[p + 1..]
    ensures multiset(b[..p] + b[p + 1..]) == multiset(b) - multiset{b[p]}
  {
    assert b == b[..p] + [b[p]] + b[p + 1..];
    assert b == b[..p] + ([b[p]] + b[p + 1..]);
  }

  /** Taking the same event out of two permutations of each other leaves permutations. */
  lemma RemoveLastMatching(a: seq<UsedQuota>, b: seq<UsedQuota>) returns (p: nat)
    requires multiset(a) == multiset(b) && a != []
    ensures p < |b| && b[p] == a[|a| - 1]
    ensures multiset(a[..|a| - 1]) == multiset(b[..p] + b[p + 1..])
  {
    var x := a[|a| - 1];
    assert x in multiset(b);
    p :| 0 <= p < |b| && b[p] == x;
    SplitAt(b, p);
    assert a == a[..|a| - 1] + [x];
  }

  /** The total of `b` is the total without position `p`, plus the event at `p`. */
  lemma TotalTokensAround(b: seq<UsedQuota>, p: nat)
    requires p < |b|
    ensures TotalTokens(b) == TotalTokens(b[..p] + b[p + 1..]) + b[p].tokens
  {
    var x := b[p];
    SplitAt(b, p);
    TotalTokensConcat(b[..p], b[p + 1..]);
    TotalTokensConcat(b[..p] + [x], b[p + 1..]);
    TotalTokensConcat(b[..p], [x]);
    assert TotalTokens([x]) == x.tokens by { assert [x][..0] == []; }
  }

  /** The tokens of `b` admitted up to `t` are those without position `p`, plus its event's share. */
  lemma TokensUpToAround(b: seq<UsedQuota>, p: nat, t: int)
    requires p < |b|
    ensures TokensUpTo(b, t) == TokensUpTo(b[..p] + b[p + 1..], t) + (if b[p].timestamp <= t then b[p].tokens else 0)
  {
    var x := b[p];
    SplitAt(b, p);
    TokensUpToConcat(b[..p], b[p + 1..], t);
    TokensUpToConcat(b[..p] + [x], b[p + 1..], t);
    TokensUpToConcat(b[..p], [x], t);
    assert TokensUpTo([x], t) == (if x.timestamp <= t then x.tokens else 0) by { assert [x][..0] == []; }
  }

  /** The total does not depend on the order of the events. */
  lemma {:induction false} TotalTokensPermutation(a: seq<UsedQuota>, b: seq<UsedQuota>)
    requires multiset(a) == multiset(b)
    ensures TotalTokens(a) == TotalTokens(b)
    decreases |a|
  {
    if a != [] {
      var p := RemoveLastMatching(a, b);
      TotalTokensPermutation(a[..|a| - 1], b[..p] + b[p + 1..]);
      TotalTokensAround(b, p);
    } else {
      assert |b| == |multiset(b)| == 0;
    }
  }

  /** The tokens admitted up to `t` do not depend on the order of the events. */
  lemma {:induction false} TokensUpToPermutation(a: seq<UsedQuota>, b: seq<UsedQuota>, t: int)
    requires multiset(a) == multiset(b)
    ensures TokensUpTo(a, t) == TokensUpTo(b, t)
    decreases |a|
  {
    if a != [] {
      var p := RemoveLastMatching(a, b);
      TokensUpToPermutation(a[..|a| - 1], b[..p] + b[p + 1..], t);
      TokensUpToAround(b, p, t);
    } else {
      assert |b| == |multiset(b)| == 0;
    }
  }

  lemma {:induction false} TotalTokensNonNegative(s: seq<UsedQuota>)
    requires NonNegativeTokens(s)
    ensures TotalTokens(s) >= 0
    decreases |s|
  {
    if s != [] {
      assert NonNegativeTokens(s[..|s| - 1]) by {
        forall e | e in s[..|s| - 1] ensures e.tokens >= 0 { assert e in s; }
      }
      TotalTokensNonNegative(s[..|s| - 1]);
      assert s[|s| - 1] in s;
    }
  }

  /** With non-negative counts, a longer prefix never holds fewer tokens. */
  lemma PrefixTotalsMonotone(s: seq<UsedQuota>, j: int, k: int)
    requires NonNegativeTokens(s) && 0 <= j <= k <= |s|
    ensures TotalTokens(s[..j]) <= TotalTokens(s[..k])
  {
    assert s[..k] == s[..j] + s[j..k];
    TotalTokensConcat(s[..j], s[j..k]);
    assert NonNegativeTokens(s[j..k]) by {
      forall e | e in s[j..k] ensures e.tokens >= 0 { assert e in s; }
    }
    TotalTokensNonNegative(s[j..k]);
  }

  /** Extending a prefix by one event adds that event's tokens. */
  lemma PrefixStep(s: seq<UsedQuota>, i: int)
    requires 0 <= i < |s|
    ensures TotalTokens(s[..i + 1]) == TotalTokens(s[..i]) + s[i].tokens
  {
    assert s[..i + 1][..i] == s[..i];
  }

  // ---------------------------------------------------------------------
  // The wait is the release time of the first crossing event

  lemma {:induction false} WaitFromAtFirstCrossing(s: seq<UsedQuota>, i: nat, request: int, available: int, now: int, k: nat)
    requires i <= k && IsFirstCrossing(s, available, request, k)
    ensures WaitFrom(s, i, request, available + TotalTokens(s[..i]), now) == Finite(ReleaseWait(s[k].timestamp, now))
    decreases k - i
  {
    PrefixStep(s, i);
    if i < k {
      assert Accumulated(s, available, i) < request;
      WaitFromAtFirstCrossing(s, i + 1, request, available, now, k);
    }
  }

  lemma {:induction false} WaitFromNoCrossing(s: seq<UsedQuota>, i: nat, request: int, available: int, now: int)
    requires i <= |s|
    requires forall j :: i <= j < |s| ==> Accumulated(s, available, j) < request
    ensures WaitFrom(s, i, request, available + TotalTokens(s[..i]), now) == Infinite
    decreases |s| - i
  {
    if i < |s| {
      PrefixStep(s, i);
      assert Accumulated(s, available, i) < request;
      WaitFromNoCrossing(s, i + 1, request, available, now);
    }
  }

  lemma {:induction false} WaitFromFiniteCrossing(s: seq<UsedQuota>, i: nat, request: int, available: int, now: int)
    requires i <= |s|
    requires WaitFrom(s, i, request, available + TotalTokens(s[..i]), now).Finite?
    ensures exists k :: i <= k && IsFirstCrossingFrom(s, available, request, i, k) &&
                        WaitFrom(s, i, request, available + TotalTokens(s[..i]), now) == Finite(ReleaseWait(s[k].timestamp, now))
    decreases |s| - i
  {
    PrefixStep(s, i);
    if Accumulated(s, available, i) < request {
      WaitFromFiniteCrossing(s, i + 1, request, available, now);
      var k :| i + 1 <= k && IsFirstCrossingFrom(s, available, request, i + 1, k) &&
               WaitFrom(s, i + 1, request, available + TotalTokens(s[..i + 1]), now) == Finite(ReleaseWait(s[k].timestamp, now));
      assert IsFirstCrossingFrom(s, available, request, i, k);
    } else {
      assert IsFirstCrossingFrom(s, available, request, i, i);
    }
  }

  /** Position `k` is the first at or after `i` where the free tokens reach `request`. */
  predicate IsFirstCrossingFrom(s: seq<UsedQuota>, available: int, request: int, i: nat, k: nat)
  {
    k < |s| && Accumulated(s, available, k) >= request &&
    forall j :: i <= j < k ==> Accumulated(s, available, j) < request
  }

  /**
   * Walking the events in timestamp order from the quota available now, the
   * wait is infinite exactly when no prefix of the events frees enough
   * tokens, and otherwise it is the release wait of the event at which the
   * free tokens first reach the request.
   */
  lemma WaitTimeIsFirstCrossing(usedQuotas: seq<UsedQuota>, request: int, available: int, now: int, s: seq<UsedQuota>)
    requires s == SortByTime(usedQuotas)
    ensures WaitTime(usedQuotas, request, available, now) == Infinite <==>
              forall j :: 0 <= j < |s| ==> Accumulated(s, available, j) < request
    ensures forall k: nat :: IsFirstCrossing(s, available, request, k) ==>
              WaitTime(usedQuotas, request, available, now) == Finite(ReleaseWait(s[k].timestamp, now))
  {
    WaitFromIsFirstCrossing(s, request, available, now);
  }

  lemma WaitFromIsFirstCrossing(s: seq<UsedQuota>, request: int, available: int, now: int)
    ensures WaitFrom(s, 0, request, available, now) == Infinite <==>
              forall j :: 0 <= j < |s| ==> Accumulated(s, available, j) < request
    ensures forall k: nat :: IsFirstCrossing(s, available, request, k) ==>
              WaitFrom(s, 0, request, available, now) == Finite(ReleaseWait(s[k].timestamp, now))
  {
    assert s[..0] == [];
    forall k: nat | IsFirstCrossing(s, available, request, k)
      ensures WaitFrom(s, 0, request, available, now) == Finite(ReleaseWait(s[k].timestamp, now))
    {
      WaitFromAtFirstCrossing(s, 0, request, available, now, k);
    }
    if forall j :: 0 <= j < |s| ==> Accumulated(s, available, j) < request {
      WaitFromNoCrossing(s, 0, request, available, now);
    } else {
      var j :| 0 <= j < |s| && Accumulated(s, available, j) >= request;
      WaitFromCrossingExists(s, request, available, now, j);
    }
  }

  /** Some crossing makes the wait finite. */
  lemma {:induction false} WaitFromCrossingExists(s: seq<UsedQuota>, request: int, available: int, now: int, j: nat)
    requires j < |s| && Accumulated(s, available, j) >= request
    ensures WaitFrom(s, 0, request, available, now).Finite?
    decreases j
  {
    if k :| 0 <= k < j && Accumulated(s, available, k) >= request {
      WaitFromCrossingExists(s, request, available, now, k);
    } else {
      assert s[..0] == [];
      WaitFromAtFirstCrossing(s, 0, request, available, now, j);
    }
  }

  /** The sorted events are time-ordered and hold the same events, hence the same total. */
  lemma SortByTimeKeeps(usedQuotas: seq<UsedQuota>)
    ensures SortedByTime(SortByTime(usedQuotas)) && multiset(SortByTime(usedQuotas)) == multiset(usedQuotas)
    ensures |SortByTime(usedQuotas)| == |usedQuotas|
    ensures TotalTokens(SortByTime(usedQuotas)) == TotalTokens(usedQuotas)
    ensures forall e :: e in SortByTime(usedQuotas) <==> e in usedQuotas
  {
    var s := SortByTime(usedQuotas);
    SortByTimeSortsAndPermutes(usedQuotas);
    assert |s| == |multiset(s)| == |multiset(usedQuotas)| == |usedQuotas|;
    TotalTokensPermutation(s, usedQuotas);
    forall e ensures e in s <==> e in usedQuotas {
      assert e in s <==> e in multiset(s);
      assert e in usedQuotas <==> e in multiset(usedQuotas);
    }
  }

  /**
   * With non-negative token counts the wait is infinite exactly when there
   * are no events, or when releasing every one of them still leaves fewer
   * than `request` tokens free.
   */
  lemma WaitTimeInfiniteExactly(usedQuotas: seq<UsedQuota>, request: int, available: int, now: int)
    requires NonNegativeTokens(usedQuotas)
    ensures WaitTime(usedQuotas, request, available, now) == Infinite <==>
            (usedQuotas == [] || available + TotalTokens(usedQuotas) < request)
  {
    var s := SortByTime(usedQuotas);
    SortByTimeKeeps(usedQuotas);
    WaitTimeIsFirstCrossing(usedQuotas, request, available, now, s);
    if s != [] {
      assert s[..|s|] == s;
      assert NonNegativeTokens(s);
      forall j | 0 <= j < |s| ensures Accumulated(s, available, j) <= available + TotalTokens(s) {
        PrefixTotalsMonotone(s, j + 1, |s|);
      }
      assert Accumulated(s, available, |s| - 1) == available + TotalTokens(s);
    }
  }

  /**
   * Whatever the token counts, a non-empty event list whose tokens together
   * with the available quota cover the request yields a finite wait.
   */
  lemma WaitTimeFiniteWhenCovered(usedQuotas: seq<UsedQuota>, request: int, available: int, now: int)
    requires usedQuotas != [] && available + TotalTokens(usedQuotas) >= request
    ensures WaitTime(usedQuotas, request, available, now).Finite?
  {
    var s := SortByTime(usedQuotas);
    SortByTimeKeeps(usedQuotas);
    assert s[..|s|] == s;
    WaitFromCrossingExists(s, request, available, now, |s| - 1);
  }

  // ---------------------------------------------------------------------
  // Monotonicity

  lemma ReleaseWaitMonotone(t1: int, t2: int, now: int)
    requires t1 <= t2
    ensures ReleaseWait(t1, now) <= ReleaseWait(t2, now)
  {
  }

  /** On time-ordered events, a wait found from position `i` on is no shorter than the release of an event before them. */
  lemma {:induction false} WaitFromNotBefore(s: seq<UsedQuota>, i: nat, request: int, accumulated: int, now: int, t: int)
    requires SortedByTime(s) && i <= |s|
    requires forall j :: i <= j < |s| ==> t <= s[j].timestamp
    ensures NoLonger(Finite(ReleaseWait(t, now)), WaitFrom(s, i, request, accumulated, now))
    decreases |s| - i
  {
    if i < |s| {
      ReleaseWaitMonotone(t, s[i].timestamp, now);
      WaitFromNotBefore(s, i + 1, request, accumulated + s[i].tokens, now, t);
    }
  }

  lemma {:induction false} WaitFromMonotone(s: seq<UsedQuota>, i: nat, r1: int, r2: int, accumulated: int, now: int)
    requires SortedByTime(s) && i <= |s| && r1 <= r2
    ensures NoLonger(WaitFrom(s, i, r1, accumulated, now), WaitFrom(s, i, r2, accumulated, now))
    decreases |s| - i
  {
    if i < |s| {
      var next := accumulated + s[i].tokens;
      if next < r1 {
        WaitFromMonotone(s, i + 1, r1, r2, next, now);
      } else if next < r2 {
        WaitFromNotBefore(s, i + 1, r2, next, now, s[i].timestamp);
      }
    }
  }

  /** Asking for more tokens, all else equal, never gives a shorter wait. */
  lemma WaitTimeMonotone(usedQuotas: seq<UsedQuota>, r1: int, r2: int, available: int, now: int)
    requires r1 <= r2
    ensures NoLonger(WaitTime(usedQuotas, r1, available, now), WaitTime(usedQuotas, r2, available, now))
  {
    SortByTimeSortsAndPermutes(usedQuotas);
    WaitFromMonotone(SortByTime(usedQuotas), 0, r1, r2, available, now);
  }

  // ---------------------------------------------------------------------
  // Independence from the order of the ledger entry

  /** Releasing every event admitted up to `t` frees at least `request` tokens. */
  predicate ReachedBy(s: seq<UsedQuota>, available: int, request: int, t: int)
  {
    available + TokensUpTo(s, t) >= request
  }

  lemma {:induction false} TokensUpToAll(s: seq<UsedQuota>, t: int)
    requires forall e :: e in s ==> e.timestamp <= t
    ensures TokensUpTo(s, t) == TotalTokens(s)
    decreases |s|
  {
    if s != [] {
      assert s[|s| - 1] in s;
      TokensUpToAll(s[..|s| - 1], t);
    }
  }

  lemma {:induction false} TokensUpToNone(s: seq<UsedQuota>, t: int)
    requires forall e :: e in s ==> e.timestamp > t
    ensures TokensUpTo(s, t) == 0
    decreases |s|
  {
    if s != [] {
      assert s[|s| - 1] in s;
      TokensUpToNone(s[..|s| - 1], t);
    }
  }

  lemma {:induction false} TokensUpToBounds(s: seq<UsedQuota>, t: int)
    requires NonNegativeTokens(s)
    ensures 0 <= TokensUpTo(s, t) <= TotalTokens(s)
    decreases |s|
  {
    if s != [] {
      assert s[|s| - 1] in s;
      assert NonNegativeTokens(s[..|s| - 1]) by {
        forall e | e in s[..|s| - 1] ensures e.tokens >= 0 { assert e in s; }
      }
      TokensUpToBounds(s[..|s| - 1], t);
    }
  }

  /** On time-ordered events, everything up to position `k` is admitted no later than `s[k]`. */
  lemma SortedReachedAt(s: seq<UsedQuota>, k: nat)
    requires SortedByTime(s) && NonNegativeTokens(s) && k < |s|
    ensures TokensUpTo(s, s[k].timestamp) >= TotalTokens(s[..k + 1])
  {
    assert s == s[..k + 1] + s[k + 1..];
    TokensUpToConcat(s[..k + 1], s[k + 1..], s[k].timestamp);
    assert forall e :: e in s[..k + 1] ==> e.timestamp <= s[k].timestamp;
    TokensUpToAll(s[..k + 1], s[k].timestamp);
    assert NonNegativeTokens(s[k + 1..]) by {
      forall e | e in s[k + 1..] ensures e.tokens >= 0 { assert e in s; }
    }
    TokensUpToBounds(s[k + 1..], s[k].timestamp);
  }

  /** On time-ordered events, nothing from position `k` on is admitted before `s[k]`. */
  lemma SortedBefore(s: seq<UsedQuota>, k: nat, t: int)
    requires SortedByTime(s) && NonNegativeTokens(s) && k < |s| && t < s[k].timestamp
    ensures TokensUpTo(s, t) <= TotalTokens(s[..k])
  {
    assert s == s[..k] + s[k..];
    TokensUpToConcat(s[..k], s[k..], t);
    assert forall e :: e in s[k..] ==> e.timestamp > t;
    TokensUpToNone(s[k..], t);
    assert NonNegativeTokens(s[..k]) by {
      forall e | e in s[..k] ensures e.tokens >= 0 { assert e in s; }
    }
    TokensUpToBounds(s[..k], t);
  }

  /**
   * On time-ordered events with non-negative counts, the wait is described
   * without reference to positions: it is infinite exactly when no event's
   * release time frees enough tokens, and otherwise it is the release wait
   * of the earliest event whose release time does.
   */
  lemma SortedWaitCharacterized(s: seq<UsedQuota>, request: int, available: int, now: int)
    requires SortedByTime(s) && NonNegativeTokens(s)
    ensures WaitFrom(s, 0, request, available, now) == Infinite <==>
              forall e :: e in s ==> !ReachedBy(s, available, request, e.timestamp)
    ensures WaitFrom(s, 0, request, available, now).Finite? ==>
              exists e :: e in s && ReachedBy(s, available, request, e.timestamp) &&
                WaitFrom(s, 0, request, available, now) == Finite(ReleaseWait(e.timestamp, now)) &&
                forall e' :: e' in s && e'.timestamp < e.timestamp ==> !ReachedBy(s, available, request, e'.timestamp)
  {
    assert s[..0] == [];
    var w := WaitFrom(s, 0, request, available, now);
    if w.Finite? {
      WaitFromFiniteCrossing(s, 0, request, available, now);
      var k: nat :| IsFirstCrossingFrom(s, available, request, 0, k) && w == Finite(ReleaseWait(s[k].timestamp, now));
      SortedReachedAt(s, k);
      forall e' | e' in s && e'.timestamp < s[k].timestamp
        ensures !ReachedBy(s, available, request, e'.timestamp)
      {
        var i :| 0 <= i < |s| && s[i] == e';
        assert i < k;
        SortedBefore(s, k, e'.timestamp);
        assert TotalTokens(s[..k]) == TotalTokens(s[..(k - 1) + 1]);
        assert Accumulated(s, available, k - 1) < request;
      }
      assert s[k] in s;
    } else {
      WaitFromIsFirstCrossing(s, request, available, now);
      forall e | e in s ensures !ReachedBy(s, available, request, e.timestamp) {
        TokensUpToBounds(s, e.timestamp);
        assert s[..(|s| - 1) + 1] == s;
        assert Accumulated(s, available, |s| - 1) < request;
      }
    }
  }

  /**
   * With non-negative token counts, the wait does not depend on the order
   * in which the ledger entry holds its events, since they are sorted first.
   */
  lemma WaitTimeOrderIndependent(a: seq<UsedQuota>, b: seq<UsedQuota>, request: int, available: int, now: int)
    requires multiset(a) == multiset(b) && NonNegativeTokens(a)
    ensures WaitTime(a, request, available, now) == WaitTime(b, request, available, now)
  {
    var u, v := SortByTime(a), SortByTime(b);
    SortByTimeKeeps(a);
    SortByTimeKeeps(b);
    assert forall e :: e in u <==> e in v by {
      forall e ensures e in u <==> e in v {
        assert e in a <==> e in multiset(a);
        assert e in b <==> e in multiset(b);
      }
    }
    assert NonNegativeTokens(u) && NonNegativeTokens(v);
    forall t ensures ReachedBy(u, available, request, t) == ReachedBy(v, available, request, t) {
      TokensUpToPermutation(u, v, t);
    }
    SortedWaitCharacterized(u, request, available, now);
    SortedWaitCharacterized(v, request, available, now);
    var wu, wv := WaitFrom(u, 0, request, available, now), WaitFrom(v, 0, request, available, now);
    if wu.Finite? && wv.Finite? {
      var e1 :| e1 in u && ReachedBy(u, available, request, e1.timestamp) && wu == Finite(ReleaseWait(e1.timestamp, now)) &&
                forall e' :: e' in u && e'.timestamp < e1.timestamp ==> !ReachedBy(u, available, request, e'.timestamp);
      var e2 :| e2 in v && ReachedBy(v, available, request, e2.timestamp) && wv == Finite(ReleaseWait(e2.timestamp, now)) &&
                forall e' :: e' in v && e'.timestamp < e2.timestamp ==> !ReachedBy(v, available, request, e'.timestamp);
      assert !(e1.timestamp < e2.timestamp);
      assert !(e2.timestamp < e1.timestamp);
    }
  }

  // ---------------------------------------------------------------------
  // The worked example of the estimator's documentation

  /**
   * 3K tokens taken at 00:00:50 and 4K at 00:01:05, 3K available at
   * 00:01:30 and 7K requested: the 3K release (00:01:50) is not enough, the
   * 4K release at 00:02:05 is, 35 seconds from now. The ledger may hold the
   * two events in either order.
   */
  lemma DocumentedExample()
    ensures var first := UsedQuota("deployment", 3000, 50 * MicrosPerSecond);
            var second := UsedQuota("deployment", 4000, 65 * MicrosPerSecond);
            WaitTime([first, second], 7000, 3000, 90 * MicrosPerSecond) == Finite(35) &&
            WaitTime([second, first], 7000, 3000, 90 * MicrosPerSecond) == Finite(35)
  {
    var first := UsedQuota("deployment", 3000, 50 * MicrosPerSecond);
    var second := UsedQuota("deployment", 4000, 65 * MicrosPerSecond);
    var now := 90 * MicrosPerSecond;
    var sorted := [first, second];
    assert SortByTime([]) == [];
    assert InsertByTime(second, []) == [second];
    assert SortByTime([second]) == [second] by { assert [second][1..] == []; }
    assert SortByTime([first]) == [first] by { assert [first][1..] == []; }
    assert InsertByTime(first, [second]) == sorted;
    assert SortByTime(sorted) == sorted by { assert sorted[1..] == [second]; }
    assert InsertByTime(second, [first]) == [first] + InsertByTime(second, []);
    assert SortByTime([second, first]) == sorted by { assert [second, first][1..] == [first]; }
    assert ReleaseWait(second.timestamp, now) == 35;
    assert WaitFrom(sorted, 1, 7000, 6000, now) == Finite(35);
    assert WaitFrom(sorted, 0, 7000, 3000, now) == Finite(35);
  }
}
