# Quota admission for Azure OpenAI deployments — a Dafny model

The service sits in front of several Azure OpenAI deployments of each
embedding model. Each deployment has a per-minute token capacity. Before a
request is forwarded, the service asks a process-wide coordinator
(`OpenAIManagement`) for quota. The coordinator keeps a ledger of used quota:
for every model and every deployment, a list of reservation events (tokens,
timestamp). An event stops counting 60 seconds after it was recorded.

The coordinator answers in one of three ways:

- a grant on some deployment, which records a reservation;
- a denial carrying the shortest wait, in seconds, until some deployment
  could serve the request;
- an error, when no deployment could ever serve it.

This project models that core and proves its properties:

- `quota_types.dfy` (`QuotaTypes`): the records (`UsedQuota`, the grant and
  denial responses, the error), a wait that is either a whole number of
  seconds or infinite, and the catalog of deployments and their capacities.
- `wait_time.dfy` (`WaitEstimator`): the wait estimator. It sorts the events
  by time, adds them to the tokens available now until the request is
  covered, and returns the seconds until that event expires, truncated and
  clamped at zero. It returns infinity when no event covers the request.
  `WaitTime` specifies it; the method `CalculateWaitTime` is the loop,
  proved equal to `WaitTime`.
- `ledger.dfy` (`Ledger`): expiry (`Live`) and the single-deployment
  admission rule (`Admit`), a pure function from an entry to a response and
  a new entry.
- `selection.dfy` (`Selection`): the rule that picks among a model's
  deployments (`Select`). It is stated over any per-deployment attempt and
  then applied to `Admit`.
- `quota_management.dfy` (`QuotaManagement`): the coordinator class.
  - Its ledger is a `map` field that the methods replace.
  - `RemoveExpiredQuotas`, `ObtainQuota` and `GetQuota` are methods with
    `modifies this`.
  - Each is proved to leave the ledger exactly as the specification
    functions above say, and to touch only the entries they name.
  - Pruning keeps every entry within capacity. Admission and selection do
    so for requests of zero or more tokens.
  - The constructor establishes that capacity invariant when no capacity
    is negative.

Time is an integer count of microseconds. Each operation receives the current
time `now` as a parameter.

## Model

| member | source | states |
|---|---|---|
| QuotaTypes.QuotaOfAt | src/openai/cfg.py:128-149 | the capacity looked up for a deployment's identity is the capacity listed for that deployment, when identities are distinct |
| WaitEstimator.SortByTime | src/openai/quota_management.py:105 | the sort by timestamp, an insertion sort; its properties are the three lemmas below |
| WaitEstimator.SortByTimeSortsAndPermutes | src/openai/quota_management.py:105 | the sort used by the estimator yields the same events (as a multiset) in non-decreasing timestamp order |
| WaitEstimator.SortByTimeStable | src/openai/quota_management.py:105 | the sort is stable: events with the same timestamp keep their input order, as Python's `sorted` does; with the previous row this fixes the result uniquely |
| WaitEstimator.SortByTimeKeeps | src/openai/quota_management.py:105 | sorting keeps the number of events, their token total and exactly the same members |
| WaitEstimator.ReleaseWait | src/openai/quota_management.py:112-115 | the wait for one event is the whole seconds until it expires (60 s after its timestamp), truncated, and 0 once it has already expired |
| WaitEstimator.WaitFrom | src/openai/quota_management.py:108-118 | the accumulation from one position of the sorted events on; its meaning is stated by `WaitTimeIsFirstCrossing` and `WaitTimeInfiniteExactly` |
| WaitEstimator.WaitTime | src/openai/quota_management.py:105-118 | the wait estimate: sort, then accumulate from the tokens available now; the lemmas below state what it computes |
| WaitEstimator.CalculateWaitTime | src/openai/quota_management.py:58-118 | the loop over the sorted events returns exactly the wait `WaitTime` specifies, with truncation toward zero and the clamp at zero written out |
| WaitEstimator.WaitTimeIsFirstCrossing | src/openai/quota_management.py:105-118 | the wait is infinite iff no prefix of the sorted events covers the request; otherwise it is the release wait of the first event whose prefix covers it |
| WaitEstimator.WaitTimeInfiniteExactly | src/openai/quota_management.py:105-118 | with non-negative reservations, the wait is infinite iff the list is empty or the tokens available now plus all events still fall short of the request |
| WaitEstimator.WaitTimeFiniteWhenCovered | src/openai/quota_management.py:108-115 | a non-empty list that covers the request always gives a finite wait |
| WaitEstimator.WaitTimeMonotone | src/openai/quota_management.py:105-118 | a larger request never gives a shorter wait |
| WaitEstimator.WaitTimeOrderIndependent | src/openai/quota_management.py:105-118 | with non-negative reservations, two lists holding the same events in any order give the same wait |
| WaitEstimator.SortedWaitCharacterized | src/openai/quota_management.py:105-118 | with non-negative reservations, on sorted events the wait is infinite iff no event's timestamp is a point where the tokens released by then cover the request; otherwise it is the release wait of the earliest such timestamp |
| WaitEstimator.DocumentedExample | src/openai/quota_management.py:68-100 | events of 3000 tokens at 00:00:50 and 4000 at 00:01:05, 3000 available now, a request of 7000 at 00:01:30: the wait is 35 s, in either input order |
| Ledger.Live | src/openai/quota_management.py:134-138 | the pruned entry; its contents are stated by `LiveMembers` and `LiveConcat` |
| Ledger.LiveMembers | src/openai/quota_management.py:133-138 | expiry keeps exactly the events whose timestamp is strictly after `now` minus 60 s, so an event exactly 60 s old is dropped |
| Ledger.LiveConcat | src/openai/quota_management.py:134-138 | expiry filters each event on its own, so the kept events stay in their original order |
| Ledger.LiveIdempotent | src/openai/quota_management.py:133-138 | pruning twice at the same time is the same as pruning once |
| Ledger.LiveLater | src/openai/quota_management.py:133-138 | pruning at one time and then at a later time is the same as pruning once at the later time |
| Ledger.LiveKeepsUnexpired | src/openai/quota_management.py:133-138 | an entry whose events are all unexpired is left unchanged |
| Ledger.Admit | src/openai/quota_management.py:146-185 | the per-deployment admission decision and the entry afterwards; its rule is stated by `AdmitGrantRule` |
| Ledger.AdmitGrantRule | src/openai/quota_management.py:146-185 | after pruning, a grant happens iff the capacity covers the request and capacity minus the pruned total covers it. A grant appends one event for the requested tokens at `now` to the pruned entry. A denial leaves the pruned entry as it is. A request larger than the capacity is denied with an infinite wait |
| Ledger.AdmitKeepsCapacity | src/openai/quota_management.py:146-175 | admitting a non-negative request keeps an entry of non-negative reservations within its deployment's capacity |
| Ledger.AdmitDenialIsFinite | src/openai/quota_management.py:163-185 | a denial of a request no larger than the capacity always carries a finite wait |
| Ledger.NegativeRequestOverfillsCapacity | src/openai/quota_management.py:149-175 | a negative request is granted and raises the headroom; once it expires, the entry holds 15000 tokens against a capacity of 10000 |
| Selection.SelectFrom | src/openai/quota_management.py:195-210 | the selection loop from one deployment on, with the best denial so far; stated by the lemmas below |
| Selection.Select | src/openai/quota_management.py:191-210 | the whole selection over a model's deployments in catalog order, starting from no denial |
| Selection.SelectFirstGrant | src/openai/quota_management.py:195-198 | when some deployment grants, the answer is the first granting deployment in catalog order. Deployments before it are pruned, the granting one records the event, and later ones are untouched |
| Selection.SelectShortestDenial | src/openai/quota_management.py:195-210 | when none grants, every deployment's entry is pruned. The answer is the error iff every wait is infinite, which includes a model with no deployments. Otherwise it is the denial with the shortest finite wait, the earliest one on ties |
| Selection.SelectErrorIffOversized | src/openai/quota_management.py:149-208 | the hard error (raised at lines 203-208) comes exactly when the request exceeds the capacity of every deployment of the model, whatever the ledger holds, because an oversized request is the only denial with an infinite wait (lines 149-152) |
| Selection.SelectGrantsIff | src/openai/quota_management.py:195-210 | the answer is a grant iff some deployment grants against the ledger as it was when the call began, with no other request interleaved |
| QuotaManagement.PruneKeepsLedgerCapacity | src/openai/quota_management.py:130-138 | pruning one entry keeps every entry of the ledger within capacity |
| QuotaManagement.AdmitKeepsLedgerCapacity | src/openai/quota_management.py:141-175 | one admission of a non-negative request keeps every entry of the whole ledger within capacity |
| QuotaManagement.UpdateKeepsCapacity | src/openai/quota_management.py:134-138 | replacing one deployment's entry with one within capacity keeps every other entry as it was and so within capacity |
| QuotaManagement.OpenAIManagement.constructor | src/openai/quota_management.py:122-125 | the ledger starts with an empty entry for exactly the deployments of each model in the catalog, and so within capacity when no capacity is negative |
| QuotaManagement.OpenAIManagement.RemoveExpiredQuotas | src/openai/quota_management.py:130-138 | the named entry becomes its live events; every other entry is unchanged, and every entry stays within capacity |
| QuotaManagement.OpenAIManagement.ObtainQuota | src/openai/quota_management.py:141-185 | returns the response of `Admit` and replaces only the named entry with `Admit`'s new entry. A non-negative request keeps the capacity invariant |
| QuotaManagement.OpenAIManagement.GetQuota | src/openai/quota_management.py:188-210 | returns the answer of `Select` and changes only the requested model's entries, as `Select` says. A non-negative request keeps the capacity invariant |

## Left out

- The lock is not modelled. `ObtainQuota` runs as one atomic step, as the lock makes it. `GetQuota` is also one step, although the code holds the lock only inside each admission and releases it between deployments (src/openai/quota_management.py:144, 195-201). So grants by other requests during a selection are not modelled.
- Reading the clock is not modelled. Each operation takes one `now`, so pruning and the recorded timestamp share one instant, whereas the code reads the clock separately for each.
- Time is whole microseconds, matching the resolution of Python datetimes; floating-point seconds are not modelled.
- Loading the configuration (cfg.py, including the conversion of capacities from thousands of tokens at line 68) is not part of this model; the catalog is a parameter.
- The web layer (app.py, service.py) and the exception's message formatting (exc.py) are not part of this model.
- The denial's wait is a `Finite`/`Infinite` value, and an oversized request yields a denial with an `Infinite` wait. In the code the wait field is declared as an integer, and pydantic's integer validation rejects `math.inf`. So building that denial (src/openai/quota_management.py:150-152) raises instead of returning. As written, the first deployment whose capacity is below the request ends `get_quota` with a validation error. Later deployments are never tried, and `OpenAIQuotaAvailableExc` (line 206) is reached only for a model with no deployments. The model follows the evident intent that the code's comments state.
- The error carries no model name or token count: the code raises it with a fixed message whose `{tokens}` placeholder is never filled in (src/openai/quota_management.py:206-208).
- WaitEstimator.WaitTimeInfiniteExactly: the estimator on an empty list returns infinity even when the tokens available now cover the request, as the code does. `ObtainQuota` never calls it in that state.
- Ledger.AdmitKeepsCapacity: proved only for non-negative requests, because the code does not reject negative token counts; `Ledger.NegativeRequestOverfillsCapacity` shows the invariant failing for one.
- QuotaManagement.OpenAIManagement.ObtainQuota: the capacity invariant is stated only for non-negative requests, for the same reason.
- QuotaManagement.OpenAIManagement.GetQuota: the capacity invariant is stated only for non-negative requests, for the same reason.
- The class-level ledger shared by all callers is one object here, built by the constructor from the catalog.
