/**
 * The quota ledger of one (model, deployment) pair: lazy expiry of the
 * events older than one window, and the per-deployment admission decision
 * that either records a new event or reports how long to wait.
 */
module Ledger {
  import opened QuotaTypes
  import opened WaitEstimator

  /** An event still holds its tokens at `now`: it was admitted less than one window ago. */
  predicate Unexpired(e: UsedQuota, now: int)
  {
    e.timestamp > now - Window
  }

  /** The events of `s` that have not expired at `now`, in their original order. */
  function Live(s: seq<UsedQuota>, now: int): seq<UsedQuota>
  {
    if s == [] then []
    else Live(s[..|s| - 1], now) + (if Unexpired(s[|s| - 1], now) then [s[|s| - 1]] else [])
  }

  /** Expiry keeps exactly the unexpired events, and never lengthens the entry. */
  lemma {:induction false} LiveMembers(s: seq<UsedQuota>, now: int)
    ensures forall e :: e in Live(s, now) <==> e in s && Unexpired(e, now)
    ensures |Live(s, now)| <= |s|
    decreases |s|
  {
    if s != [] {
      var init, last := s[..|s| - 1], s[|s| - 1];
      LiveMembers(init, now);
      assert s == init + [last];
    }
  }

  /** Expiry filters each part of a ledger entry separately, so it keeps the entry's order. */
  lemma {:induction false} LiveConcat(a: seq<UsedQuota>, b: seq<UsedQuota>, now: int)
    ensures Live(a + b, now) == Live(a, now) + Live(b, now)
    decreases |b|
  {
    if b == [] {
      assert a + b == a;
    } else {
      assert (a + b)[..|a + b| - 1] == a + b[..|b| - 1];
      LiveConcat(a, b[..|b| - 1], now);
    }
  }

  /** An entry whose events are all unexpired is kept whole. */
  lemma {:induction false} LiveKeepsUnexpired(s: seq<UsedQuota>, now: int)
    requires forall e :: e in s ==> Unexpired(e, now)
    ensures Live(s, now) == s
    decreases |s|
  {
    if s != [] {
      assert s[|s| - 1] in s;
      LiveKeepsUnexpired(s[..|s| - 1], now);
      assert s == s[..|s| - 1] + [s[|s| - 1]];
    }
  }

  /**
   * Pruning at an earlier time and then at a later one is the same as
   * pruning at the later time alone.
   */
  lemma {:induction false} LiveLater(s: seq<UsedQuota>, t1: int, t2: int)
    requires t1 <= t2
    ensures Live(Live(s, t1), t2) == Live(s, t2)
    decreases |s|
  {
    if s != [] {
      var init, last := s[..|s| - 1], s[|s| - 1];
      LiveLater(init, t1, t2);
      LiveConcat(Live(init, t1), if Unexpired(last, t1) then [last] else [], t2);
      if Unexpired(last, t1) {
        assert Live([last], t2) == Live([], t2) + (if Unexpired(last, t2) then [last] else []) by {
          assert [last][..0] == [];
        }
      }
    }
  }

  /** Pruning twice at the same time removes nothing more. */
  lemma LiveIdempotent(s: seq<UsedQuota>, now: int)
    ensures Live(Live(s, now), now) == Live(s, now)
  {
    LiveLater(s, now, now);
  }

  /** With non-negative counts, expiry never increases the tokens held. */
  lemma {:induction false} LiveTotalAtMost(s: seq<UsedQuota>, now: int)
    requires NonNegativeTokens(s)
    ensures TotalTokens(Live(s, now)) <= TotalTokens(s)
    decreases |s|
  {
    if s != [] {
      var init, last := s[..|s| - 1], s[|s| - 1];
      assert last in s;
      assert NonNegativeTokens(init) by {
        forall e | e in init ensures e.tokens >= 0 { assert e in s; }
      }
      LiveTotalAtMost(init, now);
      if Unexpired(last, now) {
        TotalTokensConcat(Live(init, now), [last]);
        assert TotalTokens([last]) == last.tokens by { assert [last][..0] == []; }
      } else {
        assert Live(s, now) == Live(init, now) + [];
        assert Live(init, now) + [] == Live(init, now);
      }
    }
  }

  /** One deployment's answer to a request, and its ledger entry afterwards. */
  datatype Admission = Admission(response: Response, entry: seq<UsedQuota>)

  /**
   * The admission decision for one deployment with capacity `quota`: prune
   * the entry, refuse outright a request larger than the capacity, grant
   * and record it when the free capacity covers it, and otherwise report
   * the estimator's wait.
   */
  function Admit(entry: seq<UsedQuota>, quota: int, model: ModelName, identity: string, tokens: int, now: int): Admission
  {
    var live := Live(entry, now);
    if quota < tokens then
      Admission(NotObtained(model, tokens, Infinite), live)
    else
      var available := quota - TotalTokens(live);
      if available >= tokens then
        Admission(Obtained(identity, tokens, model), live + [UsedQuota(identity, tokens, now)])
      else
        Admission(NotObtained(model, tokens, WaitTime(live, tokens, available, now)), live)
  }

  /** The entry holds only non-negative reservations, and no more tokens than the capacity. */
  predicate WithinCapacity(entry: seq<UsedQuota>, quota: int)
  {
    NonNegativeTokens(entry) && TotalTokens(entry) <= quota
  }

  /**
   * A request is granted exactly when it fits the capacity and the tokens
   * the unexpired events hold leave room for it; a grant appends exactly one
   * event stamped `now`, and a denial records nothing. A request larger than
   * the capacity is answered with the infinite wait.
   */
  lemma AdmitGrantRule(entry: seq<UsedQuota>, quota: int, model: ModelName, identity: string, tokens: int, now: int)
    ensures var a := Admit(entry, quota, model, identity, tokens, now);
            var live := Live(entry, now);
            (a.response.Obtained? <==> quota >= tokens && quota - TotalTokens(live) >= tokens) &&
            (a.response.Obtained? ==>
               a.response == Obtained(identity, tokens, model) &&
               a.entry == live + [UsedQuota(identity, tokens, now)]) &&
            (a.response.NotObtained? ==>
               a.response.modelName == model && a.response.tokens == tokens && a.entry == live) &&
            (quota < tokens ==> a.response == NotObtained(model, tokens, Infinite))
  {
  }

  /**
   * The capacity invariant: an admission of a non-negative request keeps
   * the tokens held by the deployment's entry within its capacity.
   */
  lemma AdmitKeepsCapacity(entry: seq<UsedQuota>, quota: int, model: ModelName, identity: string, tokens: int, now: int)
    requires WithinCapacity(entry, quota) && tokens >= 0
    ensures WithinCapacity(Admit(entry, quota, model, identity, tokens, now).entry, quota)
  {
    var live := Live(entry, now);
    LiveMembers(entry, now);
    LiveTotalAtMost(entry, now);
    var added := UsedQuota(identity, tokens, now);
    TotalTokensConcat(live, [added]);
    assert TotalTokens([added]) == tokens by { assert [added][..0] == []; }
  }

  /**
   * A request within the capacity that is denied gets a finite wait: the
   * free quota and the unexpired events together make up the capacity.
   */
  lemma AdmitDenialIsFinite(entry: seq<UsedQuota>, quota: int, model: ModelName, identity: string, tokens: int, now: int)
    requires quota >= tokens
    requires Admit(entry, quota, model, identity, tokens, now).response.NotObtained?
    ensures Admit(entry, quota, model, identity, tokens, now).response.waitSeconds.Finite?
  {
    var live := Live(entry, now);
    var available := quota - TotalTokens(live);
    assert available < tokens;
    assert Admit(entry, quota, model, identity, tokens, now).response.waitSeconds == WaitTime(live, tokens, available, now);
    WaitTimeFiniteWhenCovered(live, tokens, available, now);
  }

  /**
   * Without a lower bound on requests the invariant fails: a negative
   * request is granted and recorded, lets later grants fill the capacity
   * beyond it, and once it expires the entry holds more than the capacity.
   */
  lemma NegativeRequestOverfillsCapacity()
    ensures var id, m, quota := "deployment", EmbeddingAda002, 10000;
            var e1 := UsedQuota(id, -5000, 0);
            var e2 := UsedQuota(id, 10000, MicrosPerSecond);
            var e3 := UsedQuota(id, 5000, MicrosPerSecond);
            Admit([], quota, m, id, -5000, 0) == Admission(Obtained(id, -5000, m), [e1]) &&
            Admit([e1], quota, m, id, 10000, MicrosPerSecond) == Admission(Obtained(id, 10000, m), [e1, e2]) &&
            Admit([e1, e2], quota, m, id, 5000, MicrosPerSecond) == Admission(Obtained(id, 5000, m), [e1, e2, e3]) &&
            Live([e1, e2, e3], Window) == [e2, e3] && TotalTokens([e2, e3]) == 15000 > quota
  {
    var id := "deployment";
    var e1 := UsedQuota(id, -5000, 0);
    var e2 := UsedQuota(id, 10000, MicrosPerSecond);
    var e3 := UsedQuota(id, 5000, MicrosPerSecond);
    GrantsAfterNegative(e1, e2, e3);
    NegativeExpires(e1, e2, e3);
  }

  /** The three grants of the scenario above. */
  lemma GrantsAfterNegative(e1: UsedQuota, e2: UsedQuota, e3: UsedQuota)
    requires e1 == UsedQuota("deployment", -5000, 0)
    requires e2 == UsedQuota("deployment", 10000, MicrosPerSecond) && e3 == UsedQuota("deployment", 5000, MicrosPerSecond)
    ensures Admit([], 10000, EmbeddingAda002, "deployment", -5000, 0) == Admission(Obtained("deployment", -5000, EmbeddingAda002), [e1])
    ensures Admit([e1], 10000, EmbeddingAda002, "deployment", 10000, MicrosPerSecond) ==
            Admission(Obtained("deployment", 10000, EmbeddingAda002), [e1, e2])
    ensures Admit([e1, e2], 10000, EmbeddingAda002, "deployment", 5000, MicrosPerSecond) ==
            Admission(Obtained("deployment", 5000, EmbeddingAda002), [e1, e2, e3])
  {
    assert Live([], 0) == [];
    assert [e1][..0] == [] && [e1, e2][..1] == [e1];
    assert Live([e1], MicrosPerSecond) == [e1];
    assert TotalTokens([e1]) == -5000;
    assert Live([e1, e2], MicrosPerSecond) == [e1, e2];
    assert TotalTokens([e1, e2]) == 5000;
  }

  /** Once the negative event expires, the other two hold more than the capacity. */
  lemma NegativeExpires(e1: UsedQuota, e2: UsedQuota, e3: UsedQuota)
    requires e1 == UsedQuota("deployment", -5000, 0)
    requires e2 == UsedQuota("deployment", 10000, MicrosPerSecond) && e3 == UsedQuota("deployment", 5000, MicrosPerSecond)
    ensures Live([e1, e2, e3], Window) == [e2, e3] && TotalTokens([e2, e3]) == 15000
  {
    assert [e1][..0] == [] && [e1, e2][..1] == [e1] && [e1, e2, e3][..2] == [e1, e2];
    assert Live([e1], Window) == [];
    assert Live([e1, e2], Window) == [e2];
    assert [e2, e3][..1] == [e2] && [e2][..0] == [];
    assert TotalTokens([e2]) == 10000;
  }
}
