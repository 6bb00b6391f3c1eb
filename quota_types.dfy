/**
 * Value types shared by the quota ledger, the wait-time estimator and the
 * admission coordinator, together with the read-only resource catalog that
 * the configuration layer hands to them.
 *
 * Timestamps are integers counting microseconds, the resolution of the
 * timestamps the ledger stores; a quota event expires one minute after it
 * was admitted.
 */
module QuotaTypes {

  /** Microseconds in one second. */
  const MicrosPerSecond: int := 1_000_000

  /** Length of the rolling quota window: one minute. */
  const Window: int := 60 * MicrosPerSecond

  /** The closed set of logical embedding models. */
  datatype ModelName = EmbeddingAda002 | Embedding3Small | Embedding3Large

  /** One admitted reservation: who took how many tokens, and when. */
  datatype UsedQuota = UsedQuota(modelIdentity: string, tokens: int, timestamp: int)

  /** A wait in whole seconds, or the "never" sentinel. */
  datatype Wait = Finite(seconds: nat) | Infinite

  /** The strict comparison `a < b` on waits, with Infinite above every finite wait. */
  predicate Shorter(a: Wait, b: Wait)
  {
    a.Finite? && (b.Infinite? || a.seconds < b.seconds)
  }

  /** `a <= b` on waits. */
  predicate NoLonger(a: Wait, b: Wait)
  {
    b.Infinite? || (a.Finite? && a.seconds <= b.seconds)
  }

  /** What one admission attempt answers: the quota was obtained, or not (with a wait). */
  datatype Response =
    | Obtained(modelIdentity: string, tokens: int, modelName: ModelName)
    | NotObtained(modelName: ModelName, tokens: int, waitSeconds: Wait)

  /** The hard error raised when no resource of a model could ever satisfy a request. */
  datatype QuotaError = OpenAIQuotaAvailableExc

  datatype Result<T> = Ok(value: T) | Err(error: QuotaError)

  datatype Option<T> = None | Some(value: T)

  /** One deployment of a model, with its token capacity per window (already in raw tokens). */
  datatype Deployment = Deployment(identity: string, quota: int)

  /** For each model, its deployments in catalog order. */
  type Catalog = map<ModelName, seq<Deployment>>

  predicate DistinctIdentities(ds: seq<Deployment>)
  {
    forall j, k :: 0 <= j < k < |ds| ==> ds[j].identity != ds[k].identity
  }

  /** The catalog holds every model, and no model lists an identity twice. */
  predicate WellFormedCatalog(catalog: Catalog)
  {
    forall m: ModelName :: m in catalog && DistinctIdentities(catalog[m])
  }

  /** The identities of a model's deployments, in catalog order. */
  function Identities(ds: seq<Deployment>): (ids: seq<string>)
    ensures |ids| == |ds|
    ensures forall j :: 0 <= j < |ds| ==> ids[j] == ds[j].identity
  {
    if ds == [] then [] else [ds[0].identity] + Identities(ds[1..])
  }

  /** The capacity of the deployment named `identity`. */
  function QuotaOf(ds: seq<Deployment>, identity: string): (q: int)
    requires identity in Identities(ds)
    ensures exists j :: 0 <= j < |ds| && ds[j].identity == identity && ds[j].quota == q
  {
    if ds[0].identity == identity then ds[0].quota else QuotaOf(ds[1..], identity)
  }

  /** With distinct identities, looking a deployment up by name finds that deployment. */
  lemma {:induction false} QuotaOfAt(ds: seq<Deployment>, j: int)
    requires DistinctIdentities(ds) && 0 <= j < |ds|
    ensures ds[j].identity in Identities(ds)
    ensures QuotaOf(ds, ds[j].identity) == ds[j].quota
  {
    assert Identities(ds)[j] == ds[j].identity;
    if j > 0 {
      assert DistinctIdentities(ds[1..]) by {
        forall a, b | 0 <= a < b < |ds[1..]| ensures ds[1..][a].identity != ds[1..][b].identity {
          assert ds[1..][a] == ds[a + 1] && ds[1..][b] == ds[b + 1];
        }
      }
      QuotaOfAt(ds[1..], j - 1);
    }
  }
}
