/**
 * The admission coordinator: the process-wide ledger of used quota, keyed
 * by model and deployment, and the operations that prune it, admit one
 * request against one deployment, and choose among a model's deployments.
 *
 * Each operation takes the current time `now` as a parameter and runs as
 * one atomic step. For a single admission that is what the ledger's lock
 * gives; a selection holds the lock only while admitting each deployment,
 * so here it is modelled as if no other request interleaved.
 */
module QuotaManagement {
  import opened QuotaTypes
  import opened WaitEstimator
  import opened Ledger
  import opened Selection

  /** The ledger: for each model and deployment, the events still counted against it. */
  type QuotaLedger = map<ModelName, map<string, seq<UsedQuota>>>

  /** The catalog is well formed and the ledger holds an entry for every deployment of every model. */
  predicate Shaped(catalog: Catalog, ledger: QuotaLedger)
  {
    WellFormedCatalog(catalog) &&
    forall m: ModelName :: m in ledger && EntriesFor(catalog[m], ledger[m])
  }

  /** Every entry holds non-negative reservations whose total is within its deployment's capacity. */
  predicate Respects(catalog: Catalog, ledger: QuotaLedger)
    requires Shaped(catalog, ledger)
  {
    forall m: ModelName, j :: 0 <= j < |catalog[m]| ==>
      WithinCapacity(ledger[m][catalog[m][j].identity], catalog[m][j].quota)
  }

  /** The ledger with the entry of one deployment replaced. */
  function Update(ledger: QuotaLedger, model: ModelName, identity: string, entry: seq<UsedQuota>): QuotaLedger
    requires model in ledger
  {
    ledger[model := ledger[model][identity := entry]]
  }

  /** Replacing an entry keeps the ledger's shape. */
  lemma UpdateKeepsShape(catalog: Catalog, ledger: QuotaLedger, model: ModelName, identity: string, entry: seq<UsedQuota>)
    requires Shaped(catalog, ledger) && identity in ledger[model]
    ensures Shaped(catalog, Update(ledger, model, identity, entry))
  {
    var r := Update(ledger, model, identity, entry);
    forall m: ModelName ensures m in r && EntriesFor(catalog[m], r[m]) {
      assert m in ledger;
    }
  }

  /** Replacing the entry of deployment `j` by one within its capacity keeps every entry within capacity. */
  lemma UpdateKeepsCapacity(catalog: Catalog, ledger: QuotaLedger, model: ModelName, j: nat, entry: seq<UsedQuota>)
    requires Shaped(catalog, ledger) && Respects(catalog, ledger) && j < |catalog[model]|
    requires WithinCapacity(entry, catalog[model][j].quota)
    ensures catalog[model][j].identity in ledger[model]
    ensures Shaped(catalog, Update(ledger, model, catalog[model][j].identity, entry))
    ensures Respects(catalog, Update(ledger, model, catalog[model][j].identity, entry))
  {
    var ds := catalog[model];
    assert Identities(ds)[j] == ds[j].identity;
    UpdateKeepsShape(catalog, ledger, model, ds[j].identity, entry);
    var r := Update(ledger, model, ds[j].identity, entry);
    forall m: ModelName, k | 0 <= k < |catalog[m]|
      ensures WithinCapacity(r[m][catalog[m][k].identity], catalog[m][k].quota)
    {
      if m == model && k != j {
        assert ds[k].identity != ds[j].identity;
      }
    }
  }

  /** Pruning one entry keeps every entry of the ledger within capacity. */
  lemma PruneKeepsLedgerCapacity(catalog: Catalog, ledger: QuotaLedger, model: ModelName, identity: string, now: int)
    requires Shaped(catalog, ledger) && Respects(catalog, ledger) && identity in ledger[model]
    ensures Shaped(catalog, Update(ledger, model, identity, Live(ledger[model][identity], now)))
    ensures Respects(catalog, Update(ledger, model, identity, Live(ledger[model][identity], now)))
  {
    var entry := ledger[model][identity];
    UpdateKeepsShape(catalog, ledger, model, identity, Live(entry, now));
    var r := Update(ledger, model, identity, Live(entry, now));
    forall m: ModelName, k | 0 <= k < |catalog[m]|
      ensures WithinCapacity(r[m][catalog[m][k].identity], catalog[m][k].quota)
    {
      if m == model && catalog[m][k].identity == identity {
        LiveMembers(entry, now);
        LiveTotalAtMost(entry, now);
      }
    }
  }

  /** An admission of a non-negative request keeps every entry of the ledger within capacity. */
  lemma AdmitKeepsLedgerCapacity(catalog: Catalog, ledger: QuotaLedger, model: ModelName, identity: string, tokens: int, now: int)
    requires Shaped(catalog, ledger) && Respects(catalog, ledger) && identity in Identities(catalog[model]) && tokens >= 0
    ensures identity in ledger[model]
    ensures var a := Admit(ledger[model][identity], QuotaOf(catalog[model], identity), model, identity, tokens, now);
            Shaped(catalog, Update(ledger, model, identity, a.entry)) &&
            Respects(catalog, Update(ledger, model, identity, a.entry))
  {
    var ds := catalog[model];
    var j :| 0 <= j < |ds| && ds[j].identity == identity;
    QuotaOfAt(ds, j);
    var a := Admit(ledger[model][identity], ds[j].quota, model, identity, tokens, now);
    AdmitKeepsCapacity(ledger[model][identity], ds[j].quota, model, identity, tokens, now);
    UpdateKeepsCapacity(catalog, ledger, model, j, a.entry);
  }

  /**
   * One pass of the selection loop over the ledger: admitting deployment `i`
   * replaces its entry, keeps the ledger's shape and leaves the rest of the
   * selection to the remaining deployments unless it granted.
   */
  lemma SelectionStep(catalog: Catalog, original: QuotaLedger, ledger: QuotaLedger, model: ModelName, tokens: int, now: int,
                      i: nat, best: Option<Response>)
    requires Shaped(catalog, ledger) && i < |catalog[model]|
    requires ledger == original[model := ledger[model]]
    ensures var ds := catalog[model];
            var id := ds[i].identity;
            var a := Admit(ledger[model][id], QuotaOf(ds, id), model, id, tokens, now);
            var after := Update(ledger, model, id, a.entry);
            id in Identities(ds) && Shaped(catalog, after) && after == original[model := after[model]] &&
            SelectFrom(AdmitFor(model, tokens, now), ds, i, ledger[model], best) ==
              if a.response.Obtained? then Outcome(Ok(a.response), after[model])
              else SelectFrom(AdmitFor(model, tokens, now), ds, i + 1, after[model], NextBest(a.response, best))
  {
    var ds := catalog[model];
    var id := ds[i].identity;
    QuotaOfAt(ds, i);
    var a := Admit(ledger[model][id], QuotaOf(ds, id), model, id, tokens, now);
    UpdateKeepsShape(catalog, ledger, model, id, a.entry);
    var after := Update(ledger, model, id, a.entry);
    assert after == original[model := after[model]];
    assert AttemptAt(AdmitFor(model, tokens, now), ds, ledger[model], i) == a;
  }

  /** Replacing an entry twice keeps only the second replacement. */
  lemma UpdateTwice(ledger: QuotaLedger, model: ModelName, identity: string, e1: seq<UsedQuota>, e2: seq<UsedQuota>)
    requires model in ledger
    ensures Update(Update(ledger, model, identity, e1), model, identity, e2) == Update(ledger, model, identity, e2)
  {
    assert ledger[model][identity := e1][identity := e2] == ledger[model][identity := e2];
  }

  class OpenAIManagement {
    /** The read-only catalog: each model's deployments and their capacities. */
    const catalog: Catalog
    /** For each model and deployment, the events still counted against it. */
    var usedQuotas: QuotaLedger

    /** The ledger holds an entry for every deployment of the catalog. */
    ghost predicate Valid()
      reads this
    {
      Shaped(catalog, usedQuotas)
    }

    /** No entry holds more tokens than its deployment's capacity. */
    ghost predicate CapacityRespected()
      reads this
      requires Valid()
    {
      Respects(catalog, usedQuotas)
    }

    /** Starts with an empty entry for every deployment of every model. */
    constructor (catalog: Catalog)
      requires WellFormedCatalog(catalog)
      ensures Valid() && this.catalog == catalog
      ensures forall m: ModelName :: usedQuotas[m].Keys == (set id | id in Identities(catalog[m]))
      ensures forall m: ModelName, id :: id in usedQuotas[m] ==> usedQuotas[m][id] == []
      ensures (forall m: ModelName, j :: 0 <= j < |catalog[m]| ==> catalog[m][j].quota >= 0) ==> CapacityRespected()
    {
      this.catalog := catalog;
      usedQuotas := map m: ModelName | m in catalog :: map id | id in Identities(catalog[m]) :: [];
      new;
      forall m: ModelName, j | 0 <= j < |catalog[m]|
        ensures catalog[m][j].identity in usedQuotas[m] && usedQuotas[m][catalog[m][j].identity] == []
      {
        assert Identities(catalog[m])[j] == catalog[m][j].identity;
      }
    }

    /** Drops the events of one entry that have expired at `now`; no other entry changes. */
    method RemoveExpiredQuotas(model: ModelName, identity: string, now: int)
      requires Valid() && identity in usedQuotas[model]
      modifies this
      ensures Valid()
      ensures usedQuotas == Update(old(usedQuotas), model, identity, Live(old(usedQuotas[model][identity]), now))
      ensures old(CapacityRespected()) ==> CapacityRespected()
    {
      UpdateKeepsShape(catalog, usedQuotas, model, identity, Live(usedQuotas[model][identity], now));
      if Respects(catalog, usedQuotas) {
        PruneKeepsLedgerCapacity(catalog, usedQuotas, model, identity, now);
      }
      usedQuotas := Update(usedQuotas, model, identity, Live(usedQuotas[model][identity], now));
    }

    /**
     * Admits one request against one deployment: prunes its entry, then
     * answers as `Admit` does, recording the event on a grant. Only that
     * entry changes, and a non-negative request keeps the capacity invariant.
     */
    method ObtainQuota(model: ModelName, identity: string, tokens: int, now: int) returns (r: Response)
      requires Valid() && identity in Identities(catalog[model])
      modifies this
      ensures Valid()
      ensures var a := Admit(old(usedQuotas[model][identity]), QuotaOf(catalog[model], identity), model, identity, tokens, now);
              r == a.response && usedQuotas == Update(old(usedQuotas), model, identity, a.entry)
      ensures tokens >= 0 && old(CapacityRespected()) ==> CapacityRespected()
    {
      ghost var original := usedQuotas;
      ghost var a := Admit(original[model][identity], QuotaOf(catalog[model], identity), model, identity, tokens, now);
      ghost var live := Live(original[model][identity], now);
      RemoveExpiredQuotas(model, identity, now);
      var quota := QuotaOf(catalog[model], identity);
      if quota < tokens {
        r := NotObtained(model, tokens, Infinite);
        assert a == Admission(r, live);
      } else {
        var usedQuotaTotal := TotalTokens(usedQuotas[model][identity]);
        var availableQuota := quota - usedQuotaTotal;
        if availableQuota >= tokens {
          usedQuotas := Update(usedQuotas, model, identity, usedQuotas[model][identity] + [UsedQuota(identity, tokens, now)]);
          r := Obtained(identity, tokens, model);
          assert a == Admission(r, live + [UsedQuota(identity, tokens, now)]);
          UpdateTwice(original, model, identity, live, a.entry);
        } else {
          var waitSeconds := CalculateWaitTime(usedQuotas[model][identity], tokens, availableQuota, now);
          r := NotObtained(model, tokens, waitSeconds);
          assert a == Admission(r, live);
        }
      }
      UpdateKeepsShape(catalog, original, model, identity, a.entry);
      if tokens >= 0 && Respects(catalog, original) {
        AdmitKeepsLedgerCapacity(catalog, original, model, identity, tokens, now);
      }
    }

    /**
     * Tries the model's deployments in catalog order and answers as
     * `Select` does: the first grant, else the denial with the shortest
     * wait, else the hard quota error. Only the model's entries change.
     */
    method GetQuota(model: ModelName, tokens: int, now: int) returns (r: Result<Response>)
      requires Valid()
      modifies this
      ensures Valid()
      ensures var sel := Select(model, catalog[model], old(usedQuotas[model]), tokens, now);
              r == sel.result && usedQuotas == old(usedQuotas)[model := sel.entries]
      ensures tokens >= 0 && old(CapacityRespected()) ==> CapacityRespected()
    {
      var ds := catalog[model];
      var modelIdentities := Identities(ds);
      var minWaitSeconds := Infinite;
      var res: Option<Response> := None;
      ghost var goal := Select(model, ds, usedQuotas[model], tokens, now);
      assert usedQuotas == old(usedQuotas)[model := usedQuotas[model]];
      for i := 0 to |modelIdentities|
        invariant Valid()
        invariant usedQuotas == old(usedQuotas)[model := usedQuotas[model]]
        invariant SelectFrom(AdmitFor(model, tokens, now), ds, i, usedQuotas[model], res) == goal
        invariant minWaitSeconds == BestWait(res)
        invariant tokens >= 0 && old(CapacityRespected()) ==> CapacityRespected()
      {
        SelectionStep(catalog, old(usedQuotas), usedQuotas, model, tokens, now, i, res);
        var response := ObtainQuota(model, modelIdentities[i], tokens, now);
        if response.Obtained? {
          return Ok(response);
        }
        if Shorter(response.waitSeconds, minWaitSeconds) {
          minWaitSeconds := response.waitSeconds;
          res := Some(response);
        }
      }
      if minWaitSeconds == Infinite {
        return Err(OpenAIQuotaAvailableExc);
      }
      return Ok(res.value);
    }
  }
}
