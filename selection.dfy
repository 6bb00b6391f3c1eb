/**
 * Cross-deployment selection: the deployments of a model are tried in
 * catalog order; the first grant wins, otherwise the denial with the
 * shortest wait is returned, and a model none of whose deployments could
 * ever serve the request raises the hard quota error.
 *
 * The policy is stated over any per-deployment decision `attempt`, which
 * maps a deployment and its ledger entry to a response and the entry
 * afterwards; `Select` instantiates it with the admission decision.
 */
module Selection {
  import opened QuotaTypes
  import opened Ledger

  type Attempt = (Deployment, seq<UsedQuota>) -> Admission

  /** The outcome of a selection and the model's ledger entries afterwards. */
  datatype Outcome = Outcome(result: Result<Response>, entries: map<string, seq<UsedQuota>>)

  /** The wait of the best denial so far; no denial so far counts as infinite. */
  function BestWait(best: Option<Response>): Wait
  {
    if best.Some? && best.value.NotObtained? then best.value.waitSeconds else Infinite
  }

  /** A denial replaces the best one so far only when its wait is strictly shorter. */
  function NextBest(denial: Response, best: Option<Response>): Option<Response>
  {
    if denial.NotObtained? && Shorter(denial.waitSeconds, BestWait(best)) then Some(denial) else best
  }

  predicate EntriesFor(ds: seq<Deployment>, entries: map<string, seq<UsedQuota>>)
  {
    forall j :: 0 <= j < |ds| ==> ds[j].identity in entries
  }

  /** What deployment `j` answers against the entries `entries`. */
  function AttemptAt(attempt: Attempt, ds: seq<Deployment>, entries: map<string, seq<UsedQuota>>, j: nat): Admission
    requires j < |ds| && EntriesFor(ds, entries)
  {
    attempt(ds[j], entries[ds[j].identity])
  }

  /**
   * The selection loop from deployment `i` on, with the model's entries as
   * they stand and the best denial seen so far.
   */
  function SelectFrom(attempt: Attempt, ds: seq<Deployment>, i: nat, entries: map<string, seq<UsedQuota>>,
                      best: Option<Response>): Outcome
    requires i <= |ds| && EntriesFor(ds, entries)
    decreases |ds| - i
  {
    if i == |ds| then
      Outcome(if BestWait(best) == Infinite then Err(OpenAIQuotaAvailableExc) else Ok(best.value), entries)
    else
      var a := AttemptAt(attempt, ds, entries, i);
      var entries' := entries[ds[i].identity := a.entry];
      if a.response.Obtained? then Outcome(Ok(a.response), entries')
      else SelectFrom(attempt, ds, i + 1, entries', NextBest(a.response, best))
  }

  /** The per-deployment admission decision for one request. */
  function AdmitFor(model: ModelName, tokens: int, now: int): Attempt
  {
    (d: Deployment, entry: seq<UsedQuota>) => Admit(entry, d.quota, model, d.identity, tokens, now)
  }

  /** The whole selection for a request of `tokens` to a model whose deployments are `ds`. */
  function Select(model: ModelName, ds: seq<Deployment>, entries: map<string, seq<UsedQuota>>, tokens: int, now: int): Outcome
    requires EntriesFor(ds, entries)
  {
    SelectFrom(AdmitFor(model, tokens, now), ds, 0, entries, None)
  }

  function WaitAt(attempt: Attempt, ds: seq<Deployment>, entries: map<string, seq<UsedQuota>>, j: nat): Wait
    requires j < |ds| && EntriesFor(ds, entries)
  {
    var r := AttemptAt(attempt, ds, entries, j).response;
    if r.NotObtained? then r.waitSeconds else Infinite
  }

  predicate GrantsAt(attempt: Attempt, ds: seq<Deployment>, entries: map<string, seq<UsedQuota>>, j: nat)
    requires j < |ds| && EntriesFor(ds, entries)
  {
    AttemptAt(attempt, ds, entries, j).response.Obtained?
  }

  /** From deployment `i` on, the two entry maps hold the same entries. */
  predicate AgreeFrom(ds: seq<Deployment>, i: nat, entries: map<string, seq<UsedQuota>>, original: map<string, seq<UsedQuota>>)
    requires EntriesFor(ds, entries) && EntriesFor(ds, original)
  {
    forall j :: i <= j < |ds| ==> entries[ds[j].identity] == original[ds[j].identity]
  }

  lemma {:induction false} SelectFromFirstGrant(attempt: Attempt, ds: seq<Deployment>, i: nat, entries: map<string, seq<UsedQuota>>,
                                                original: map<string, seq<UsedQuota>>, best: Option<Response>, k: nat)
    requires DistinctIdentities(ds) && i <= k < |ds|
    requires EntriesFor(ds, entries) && EntriesFor(ds, original) && AgreeFrom(ds, i, entries, original)
    requires GrantsAt(attempt, ds, original, k)
    requires forall j :: i <= j < k ==> !GrantsAt(attempt, ds, original, j)
    ensures var sel := SelectFrom(attempt, ds, i, entries, best);
            sel.result == Ok(AttemptAt(attempt, ds, original, k).response) &&
            sel.entries.Keys == entries.Keys &&
            (forall j :: 0 <= j < i ==> sel.entries[ds[j].identity] == entries[ds[j].identity]) &&
            (forall j :: i <= j <= k ==> sel.entries[ds[j].identity] == AttemptAt(attempt, ds, original, j).entry) &&
            (forall j :: k < j < |ds| ==> sel.entries[ds[j].identity] == entries[ds[j].identity])
    decreases k - i
  {
    var a := AttemptAt(attempt, ds, entries, i);
    assert a == AttemptAt(attempt, ds, original, i);
    var entries' := entries[ds[i].identity := a.entry];
    var sel := SelectFrom(attempt, ds, i, entries, best);
    if i == k {
      assert sel == Outcome(Ok(a.response), entries');
      forall j | 0 <= j < i ensures sel.entries[ds[j].identity] == entries[ds[j].identity] {
        assert ds[j].identity != ds[i].identity;
      }
      forall j | k < j < |ds| ensures sel.entries[ds[j].identity] == entries[ds[j].identity] {
        assert ds[i].identity != ds[j].identity;
      }
    } else {
      assert !GrantsAt(attempt, ds, original, i);
      assert AgreeFrom(ds, i + 1, entries', original) by {
        forall j | i + 1 <= j < |ds| ensures entries'[ds[j].identity] == original[ds[j].identity] {
          assert ds[i].identity != ds[j].identity;
        }
      }
      SelectFromFirstGrant(attempt, ds, i + 1, entries', original, NextBest(a.response, best), k);
      assert sel == SelectFrom(attempt, ds, i + 1, entries', NextBest(a.response, best));
      forall j | 0 <= j < i ensures sel.entries[ds[j].identity] == entries[ds[j].identity] {
        assert ds[j].identity != ds[i].identity;
      }
      forall j | k < j < |ds| ensures sel.entries[ds[j].identity] == entries[ds[j].identity] {
        assert ds[i].identity != ds[j].identity;
      }
    }
  }

  /** A deployment that denies passes the selection on to the next one, with its entry replaced. */
  lemma DeniedStep(attempt: Attempt, ds: seq<Deployment>, i: nat, entries: map<string, seq<UsedQuota>>,
                   original: map<string, seq<UsedQuota>>, best: Option<Response>)
    requires DistinctIdentities(ds) && i < |ds|
    requires EntriesFor(ds, entries) && EntriesFor(ds, original) && AgreeFrom(ds, i, entries, original)
    requires !GrantsAt(attempt, ds, original, i)
    ensures var a := AttemptAt(attempt, ds, original, i);
            var entries' := entries[ds[i].identity := a.entry];
            a == AttemptAt(attempt, ds, entries, i) && a.response.NotObtained? &&
            a.response.waitSeconds == WaitAt(attempt, ds, original, i) &&
            EntriesFor(ds, entries') && AgreeFrom(ds, i + 1, entries', original) &&
            SelectFrom(attempt, ds, i, entries, best) == SelectFrom(attempt, ds, i + 1, entries', NextBest(a.response, best))
  {
    var a := AttemptAt(attempt, ds, entries, i);
    assert a == AttemptAt(attempt, ds, original, i);
    var entries' := entries[ds[i].identity := a.entry];
    forall j | i + 1 <= j < |ds| ensures entries'[ds[j].identity] == original[ds[j].identity] {
      assert ds[i].identity != ds[j].identity;
    }
  }

  lemma {:induction false} SelectFromDeniedEntries(attempt: Attempt, ds: seq<Deployment>, i: nat, entries: map<string, seq<UsedQuota>>,
                                                   original: map<string, seq<UsedQuota>>, best: Option<Response>)
    requires DistinctIdentities(ds) && i <= |ds|
    requires EntriesFor(ds, entries) && EntriesFor(ds, original) && AgreeFrom(ds, i, entries, original)
    requires forall j :: i <= j < |ds| ==> !GrantsAt(attempt, ds, original, j)
    ensures var sel := SelectFrom(attempt, ds, i, entries, best);
            sel.entries.Keys == entries.Keys &&
            (forall j :: 0 <= j < i ==> sel.entries[ds[j].identity] == entries[ds[j].identity]) &&
            (forall j :: i <= j < |ds| ==> sel.entries[ds[j].identity] == AttemptAt(attempt, ds, original, j).entry)
    decreases |ds| - i
  {
    if i < |ds| {
      DeniedStep(attempt, ds, i, entries, original, best);
      var a := AttemptAt(attempt, ds, original, i);
      var entries' := entries[ds[i].identity := a.entry];
      SelectFromDeniedEntries(attempt, ds, i + 1, entries', original, NextBest(a.response, best));
      var sel := SelectFrom(attempt, ds, i, entries, best);
      forall j | 0 <= j < i ensures sel.entries[ds[j].identity] == entries[ds[j].identity] {
        assert ds[j].identity != ds[i].identity;
      }
    }
  }

  /** With every deployment denying, the hard error comes exactly when no wait, earlier or later, is finite. */
  lemma {:induction false} SelectFromDeniedError(attempt: Attempt, ds: seq<Deployment>, i: nat, entries: map<string, seq<UsedQuota>>,
                                                 original: map<string, seq<UsedQuota>>, best: Option<Response>)
    requires DistinctIdentities(ds) && i <= |ds|
    requires EntriesFor(ds, entries) && EntriesFor(ds, original) && AgreeFrom(ds, i, entries, original)
    requires forall j :: i <= j < |ds| ==> !GrantsAt(attempt, ds, original, j)
    requires best.Some? ==> best.value.NotObtained? && best.value.waitSeconds.Finite?
    ensures SelectFrom(attempt, ds, i, entries, best).result.Err? <==>
            best.None? && forall j :: i <= j < |ds| ==> WaitAt(attempt, ds, original, j) == Infinite
    decreases |ds| - i
  {
    if i < |ds| {
      DeniedStep(attempt, ds, i, entries, original, best);
      var a := AttemptAt(attempt, ds, original, i);
      SelectFromDeniedError(attempt, ds, i + 1, entries[ds[i].identity := a.entry], original, NextBest(a.response, best));
    }
  }

  /**
   * With every deployment denying, a successful selection returns either the
   * best denial seen before `i`, which no later wait beats, or the first
   * later denial whose wait is the shortest.
   */
  lemma {:induction false} SelectFromDeniedResult(attempt: Attempt, ds: seq<Deployment>, i: nat, entries: map<string, seq<UsedQuota>>,
                                                  original: map<string, seq<UsedQuota>>, best: Option<Response>)
    requires DistinctIdentities(ds) && i <= |ds|
    requires EntriesFor(ds, entries) && EntriesFor(ds, original) && AgreeFrom(ds, i, entries, original)
    requires forall j :: i <= j < |ds| ==> !GrantsAt(attempt, ds, original, j)
    ensures var sel := SelectFrom(attempt, ds, i, entries, best);
            (sel.result.Ok? ==>
               (best.Some? && sel.result.value == best.value &&
                  forall j :: i <= j < |ds| ==> NoLonger(BestWait(best), WaitAt(attempt, ds, original, j))) ||
               (exists k :: i <= k < |ds| && sel.result.value == AttemptAt(attempt, ds, original, k).response &&
                  Shorter(WaitAt(attempt, ds, original, k), BestWait(best)) &&
                  (forall j :: i <= j < |ds| ==> NoLonger(WaitAt(attempt, ds, original, k), WaitAt(attempt, ds, original, j))) &&
                  (forall j :: i <= j < k ==> Shorter(WaitAt(attempt, ds, original, k), WaitAt(attempt, ds, original, j)))))
    decreases |ds| - i
  {
    if i < |ds| {
      DeniedStep(attempt, ds, i, entries, original, best);
      var a := AttemptAt(attempt, ds, original, i);
      var w := a.response.waitSeconds;
      var entries' := entries[ds[i].identity := a.entry];
      var best' := NextBest(a.response, best);
      SelectFromDeniedResult(attempt, ds, i + 1, entries', original, best');
      var sel := SelectFrom(attempt, ds, i + 1, entries', best');
      if sel.result.Ok? {
        if best'.Some? && sel.result.value == best'.value &&
           forall j :: i + 1 <= j < |ds| ==> NoLonger(BestWait(best'), WaitAt(attempt, ds, original, j)) {
          if Shorter(w, BestWait(best)) {
            assert sel.result.value == AttemptAt(attempt, ds, original, i).response;
          }
        } else {
          var k :| i + 1 <= k < |ds| && sel.result.value == AttemptAt(attempt, ds, original, k).response &&
                   Shorter(WaitAt(attempt, ds, original, k), BestWait(best')) &&
                   (forall j :: i + 1 <= j < |ds| ==> NoLonger(WaitAt(attempt, ds, original, k), WaitAt(attempt, ds, original, j))) &&
                   (forall j :: i + 1 <= j < k ==> Shorter(WaitAt(attempt, ds, original, k), WaitAt(attempt, ds, original, j)));
          assert Shorter(WaitAt(attempt, ds, original, k), w);
        }
      }
    }
  }

  /**
   * The first deployment, in catalog order, that can grant the request
   * wins: the selection returns its grant, every earlier deployment's entry
   * has only been pruned, and no later deployment is tried, so their
   * entries are untouched.
   */
  lemma SelectFirstGrant(model: ModelName, ds: seq<Deployment>, entries: map<string, seq<UsedQuota>>, tokens: int, now: int, k: nat)
    requires DistinctIdentities(ds) && EntriesFor(ds, entries) && k < |ds|
    requires GrantsAt(AdmitFor(model, tokens, now), ds, entries, k)
    requires forall j :: 0 <= j < k ==> !GrantsAt(AdmitFor(model, tokens, now), ds, entries, j)
    ensures var sel, attempt := Select(model, ds, entries, tokens, now), AdmitFor(model, tokens, now);
            sel.result == Ok(AttemptAt(attempt, ds, entries, k).response) &&
            sel.entries.Keys == entries.Keys &&
            (forall j :: 0 <= j <= k ==> sel.entries[ds[j].identity] == AttemptAt(attempt, ds, entries, j).entry) &&
            (forall j :: k < j < |ds| ==> sel.entries[ds[j].identity] == entries[ds[j].identity])
  {
    SelectFromFirstGrant(AdmitFor(model, tokens, now), ds, 0, entries, entries, None, k);
  }

  /**
   * When no deployment can grant the request, every deployment's entry is
   * pruned and nothing is recorded; the hard error is raised exactly when
   * every deployment's wait is infinite (in particular for a model without
   * deployments), and otherwise the answer is the denial with the shortest
   * wait, the earliest one in catalog order among equals.
   */
  lemma SelectShortestDenial(model: ModelName, ds: seq<Deployment>, entries: map<string, seq<UsedQuota>>, tokens: int, now: int)
    requires DistinctIdentities(ds) && EntriesFor(ds, entries)
    requires forall j :: 0 <= j < |ds| ==> !GrantsAt(AdmitFor(model, tokens, now), ds, entries, j)
    ensures var sel, attempt := Select(model, ds, entries, tokens, now), AdmitFor(model, tokens, now);
            sel.entries.Keys == entries.Keys &&
            (forall j :: 0 <= j < |ds| ==> sel.entries[ds[j].identity] == AttemptAt(attempt, ds, entries, j).entry)
    ensures var sel, attempt := Select(model, ds, entries, tokens, now), AdmitFor(model, tokens, now);
            (sel.result.Err? <==> forall j :: 0 <= j < |ds| ==> WaitAt(attempt, ds, entries, j) == Infinite) &&
            (sel.result.Ok? ==>
               exists k :: 0 <= k < |ds| && sel.result.value == AttemptAt(attempt, ds, entries, k).response &&
                 WaitAt(attempt, ds, entries, k).Finite? &&
                 (forall j :: 0 <= j < |ds| ==> NoLonger(WaitAt(attempt, ds, entries, k), WaitAt(attempt, ds, entries, j))) &&
                 (forall j :: 0 <= j < k ==> Shorter(WaitAt(attempt, ds, entries, k), WaitAt(attempt, ds, entries, j))))
  {
    SelectFromDeniedEntries(AdmitFor(model, tokens, now), ds, 0, entries, entries, None);
    SelectFromDeniedError(AdmitFor(model, tokens, now), ds, 0, entries, entries, None);
    SelectFromDeniedResult(AdmitFor(model, tokens, now), ds, 0, entries, entries, None);
  }

  /** The selection grants exactly when some deployment of the model can grant the request. */
  lemma SelectGrantsIff(model: ModelName, ds: seq<Deployment>, entries: map<string, seq<UsedQuota>>, tokens: int, now: int)
    requires DistinctIdentities(ds) && EntriesFor(ds, entries)
    ensures var sel := Select(model, ds, entries, tokens, now);
            (sel.result.Ok? && sel.result.value.Obtained?) <==>
            exists k :: 0 <= k < |ds| && GrantsAt(AdmitFor(model, tokens, now), ds, entries, k)
  {
    var attempt := AdmitFor(model, tokens, now);
    if k :| 0 <= k < |ds| && GrantsAt(attempt, ds, entries, k) {
      var first := FirstGrant(attempt, ds, entries, k);
      SelectFirstGrant(model, ds, entries, tokens, now, first);
    } else {
      SelectShortestDenial(model, ds, entries, tokens, now);
    }
  }

  /**
   * The hard error is raised exactly when the request exceeds the capacity
   * of every deployment of the model, whatever the ledger holds.
   */
  lemma SelectErrorIffOversized(model: ModelName, ds: seq<Deployment>, entries: map<string, seq<UsedQuota>>, tokens: int, now: int)
    requires DistinctIdentities(ds) && EntriesFor(ds, entries)
    ensures Select(model, ds, entries, tokens, now).result.Err? <==> forall j :: 0 <= j < |ds| ==> ds[j].quota < tokens
  {
    var attempt := AdmitFor(model, tokens, now);
    if k :| 0 <= k < |ds| && GrantsAt(attempt, ds, entries, k) {
      SelectGrantsIff(model, ds, entries, tokens, now);
      AdmitGrantRule(entries[ds[k].identity], ds[k].quota, model, ds[k].identity, tokens, now);
    } else {
      SelectShortestDenial(model, ds, entries, tokens, now);
      forall j | 0 <= j < |ds| ensures WaitAt(attempt, ds, entries, j) == Infinite <==> ds[j].quota < tokens {
        var entry := entries[ds[j].identity];
        assert AttemptAt(attempt, ds, entries, j) == Admit(entry, ds[j].quota, model, ds[j].identity, tokens, now);
        AdmitGrantRule(entry, ds[j].quota, model, ds[j].identity, tokens, now);
        if ds[j].quota >= tokens {
          assert !GrantsAt(attempt, ds, entries, j);
          AdmitDenialIsFinite(entry, ds[j].quota, model, ds[j].identity, tokens, now);
        }
      }
    }
  }

  /** Some grant implies a first grant. */
  lemma {:induction false} FirstGrant(attempt: Attempt, ds: seq<Deployment>, entries: map<string, seq<UsedQuota>>, k: nat) returns (first: nat)
    requires EntriesFor(ds, entries) && k < |ds| && GrantsAt(attempt, ds, entries, k)
    ensures first <= k && GrantsAt(attempt, ds, entries, first)
    ensures forall j :: 0 <= j < first ==> !GrantsAt(attempt, ds, entries, j)
    decreases k
  {
    if j :| 0 <= j < k && GrantsAt(attempt, ds, entries, j) {
      first := FirstGrant(attempt, ds, entries, j);
    } else {
      first := k;
    }
  }
}
