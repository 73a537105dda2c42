/**
 * The specification of `PolicyManager::load`: how one policy entry becomes a
 * Policy, which bucket it goes to, and the intent-indexed catalog built from
 * a whole configuration.
 */
module Catalog {
  import opened Wrappers
  import opened Triggers
  import opened Policies

  /** `new PolicyTrigger(intent ?? '', slots ?? [], changed_slots ?? [], state ?? '')`. */
  function BuildTrigger(c: TriggerConfig): (t: Trigger)
    ensures ValidTrigger(t)
  {
    NewTrigger(c.intent.GetOr(""), c.slots.GetOr(List([])), c.changedSlots.GetOr(List([])), c.state.GetOr(Str("")))
  }

  /** The catalog key of an entry: its intent, or NON_INTENT when that is empty or absent. */
  function BucketKey(c: TriggerConfig): (k: string)
    ensures k != ""
    ensures k == BuildTrigger(c).intent
  {
    var intent := c.intent.GetOr("");
    if intent == "" then NON_INTENT else intent
  }

  /** The params array: each param under its name, later ones overwriting earlier ones. */
  function ParamIndex(ps: seq<ParamConfig>): map<string, Param>
  {
    if ps == [] then map[]
    else ParamIndex(ps[..|ps| - 1])[ps[|ps| - 1].name := BuildParam(ps[|ps| - 1])]
  }

  /** Params of an entry; a missing or non-array `params` gives none. */
  function BuildParams(params: Option<seq<ParamConfig>>): map<string, Param>
  {
    match params
    case None => map[]
    case Some(ps) => ParamIndex(ps)
  }

  /** The params map has exactly the declared names as keys. */
  lemma {:induction false} ParamIndexKeys(ps: seq<ParamConfig>)
    ensures ParamIndex(ps).Keys == set p | p in ps :: p.name
  {
    if ps != [] {
      var init, last := ps[..|ps| - 1], ps[|ps| - 1];
      ParamIndexKeys(init);
      assert ps == init + [last];
      assert (set p | p in ps :: p.name) == (set p | p in init :: p.name) + {last.name};
    }
  }

  /** A param that no later param shares a name with is the one stored under its name. */
  lemma {:induction false} LastParamWins(ps: seq<ParamConfig>, i: nat)
    requires i < |ps|
    requires forall j | i < j < |ps| :: ps[j].name != ps[i].name
    ensures ps[i].name in ParamIndex(ps) && ParamIndex(ps)[ps[i].name] == BuildParam(ps[i])
  {
    if i < |ps| - 1 {
      var init := ps[..|ps| - 1];
      assert init[i] == ps[i];
      assert forall j | i < j < |init| :: init[j] == ps[j];
      LastParamWins(init, i);
    }
  }

  /** The outputs of an entry: one function output for a string, one output per element for an array, none otherwise. */
  function BuildOutputs(c: OutputConfig): (outs: seq<Output>)
    ensures c.OutputName? ==> outs == [FunctionOutput(c.name)]
    ensures c.OutputItems? ==> |outs| == |c.items| && forall i | 0 <= i < |outs| :: outs[i] == BuildItem(c.items[i])
    ensures c.OutputOther? ==> outs == []
  {
    match c
    case OutputName(name) => [FunctionOutput(name)]
    case OutputItems(items) => seq(|items|, i requires 0 <= i < |items| => BuildItem(items[i]))
    case OutputOther => []
  }

  function BuildPolicy(c: PolicyConfig): Policy {
    Policy(BuildTrigger(c.trigger), BuildParams(c.params), BuildOutputs(c.output))
  }

  /** `m` with `p` appended to the bucket `k`, which is created if missing. */
  function Append(m: map<string, seq<Policy>>, k: string, p: Policy): map<string, seq<Policy>> {
    m[k := (if k in m then m[k] else []) + [p]]
  }

  /**
   * The catalog `load` builds, entry by entry: it is empty only for no
   * entries, so only an empty configuration leaves the cache unset.
   */
  function BuildCatalog(ps: seq<PolicyConfig>): (m: map<string, seq<Policy>>)
    ensures |m| == 0 <==> ps == []
  {
    if ps == [] then map[]
    else
      var last := ps[|ps| - 1];
      Append(BuildCatalog(ps[..|ps| - 1]), BucketKey(last.trigger), BuildPolicy(last))
  }

  /** The policies of the entries whose key is `k`, in declaration order. */
  function Bucket(ps: seq<PolicyConfig>, k: string): seq<Policy>
  {
    if ps == [] then []
    else
      var last := ps[|ps| - 1];
      Bucket(ps[..|ps| - 1], k) + (if BucketKey(last.trigger) == k then [BuildPolicy(last)] else [])
  }

  /**
   * The catalog has a bucket for exactly the keys of the entries, and each
   * bucket is the in-order list of the policies of the entries with that key.
   */
  lemma {:induction false} CatalogIsBuckets(ps: seq<PolicyConfig>, k: string)
    ensures k in BuildCatalog(ps) <==> exists c | c in ps :: BucketKey(c.trigger) == k
    ensures k !in BuildCatalog(ps) ==> Bucket(ps, k) == []
    ensures k in BuildCatalog(ps) ==> BuildCatalog(ps)[k] == Bucket(ps, k)
  {
    if ps != [] {
      var init, last := ps[..|ps| - 1], ps[|ps| - 1];
      CatalogIsBuckets(init, k);
      assert ps == init + [last];
      assert forall c | c in ps :: c in init || c == last;
      assert forall c | c in init :: c in ps;
    }
  }

  /** Declaration order is kept: a bucket of a concatenation is the concatenation of the buckets. */
  lemma {:induction false} BucketKeepsOrder(xs: seq<PolicyConfig>, ys: seq<PolicyConfig>, k: string)
    ensures Bucket(xs + ys, k) == Bucket(xs, k) + Bucket(ys, k)
  {
    if ys != [] {
      var init := ys[..|ys| - 1];
      BucketKeepsOrder(xs, init, k);
      assert (xs + ys)[..|xs + ys| - 1] == xs + init;
    } else {
      assert xs + ys == xs;
    }
  }

  lemma {:induction false} BucketHasEntry(ps: seq<PolicyConfig>, i: nat)
    requires i < |ps|
    ensures BuildPolicy(ps[i]) in Bucket(ps, BucketKey(ps[i].trigger))
  {
    var init := ps[..|ps| - 1];
    if i < |init| {
      assert init[i] == ps[i];
      BucketHasEntry(init, i);
    }
  }

  /** Every entry's policy is in the bucket of its own key. */
  lemma EntryInItsBucket(ps: seq<PolicyConfig>, i: nat)
    requires i < |ps|
    ensures BucketKey(ps[i].trigger) in BuildCatalog(ps)
    ensures BuildPolicy(ps[i]) in BuildCatalog(ps)[BucketKey(ps[i].trigger)]
  {
    assert ps[i] in ps;
    CatalogIsBuckets(ps, BucketKey(ps[i].trigger));
    BucketHasEntry(ps, i);
  }

  /**
   * A bucket holds only policies whose trigger intent is its key, so an
   * entry is in no other bucket than its own.
   */
  lemma {:induction false} BucketHoldsItsIntent(ps: seq<PolicyConfig>, k: string)
    requires k in BuildCatalog(ps)
    ensures forall p | p in BuildCatalog(ps)[k] :: p.trigger.intent == k
  {
    var init := ps[..|ps| - 1];
    if k in BuildCatalog(init) {
      BucketHoldsItsIntent(init, k);
    }
  }
}
