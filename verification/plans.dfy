/** `SubscriptionPlanService`: plan creation, the two-field update, the soft
    delete, the active / inactive listings and the caller's active
    subscription. */
module Plans {
  import opened Outcomes
  import opened Json
  import opened Ids
  import opened Text
  import opened Schema
  import opened Reconcile

  /** `createSubscription`: a plan name may be used once, whether or not the
      existing plan is active; a new plan is active unless told otherwise. */
  function CreatePlan(plans: map<int, Plan>, name: string, price: real, durationDays: int,
                      features: Option<Value>, isActive: Option<bool>): (r: Result<(map<int, Plan>, int)>)
    ensures r.Err? <==> exists p :: p in plans && plans[p].name == name
    ensures r.Err? ==> r.error == Conflict
    ensures r.Ok? ==>
      var (plans', id) := r.value;
      && id !in plans
      && plans' == plans[id := Plan(name, price, durationDays, features, isActive.GetOr(true))]
      && plans'[id].isActive == (isActive != Some(false))
  {
    if exists p :: p in plans && plans[p].name == name then Err(Conflict)
    else
      var id := FreshId(plans.Keys);
      Ok((plans[id := Plan(name, price, durationDays, features, isActive.GetOr(true))], id))
  }

  /** A `features` value that `updatePlan` stores: anything but a string
      that is blank after trimming. */
  predicate FeaturesTaken(v: Value) {
    !(v.Str? && Trim(v.s) == "")
  }

  /** `updatePlan`: only `is_active` and `features` can change; a blank
      string for `features` is ignored and a non-blank one is stored as sent,
      untrimmed. */
  function UpdatePlan(plans: map<int, Plan>, id: int, isActive: Option<bool>, features: Option<Value>): (r: Result<map<int, Plan>>)
    ensures r.Ok? <==> id in plans && (isActive.Some? || (features.Some? && FeaturesTaken(features.value)))
    ensures r == Err(NotFound) <==> id !in plans
    ensures r == Err(BadRequest) <==> id in plans && isActive.None? && (features.None? || !FeaturesTaken(features.value))
    ensures r.Ok? ==>
      var prev := plans[id];
      && r.value.Keys == plans.Keys
      && (forall k :: k in plans && k != id ==> r.value[k] == plans[k])
      && r.value[id].name == prev.name && r.value[id].price == prev.price
      && r.value[id].durationDays == prev.durationDays
      && r.value[id].isActive == isActive.GetOr(prev.isActive)
      && r.value[id].features == (if features.Some? && FeaturesTaken(features.value) then features else prev.features)
  {
    if id !in plans then Err(NotFound)
    else
      var takeFeatures := features.Some? && FeaturesTaken(features.value);
      if isActive.None? && !takeFeatures then Err(BadRequest)
      else
        var prev := plans[id];
        var next := prev.(isActive := isActive.GetOr(prev.isActive),
                          features := if takeFeatures then features else prev.features);
        Ok(plans[id := next])
  }

  /** `deletePlan`: a soft delete. */
  function DeletePlan(plans: map<int, Plan>, id: int): (r: Result<map<int, Plan>>)
    ensures r.Err? <==> id !in plans
    ensures r.Err? ==> r.error == NotFound
    ensures r.Ok? ==> r.value == plans[id := plans[id].(isActive := false)]
    ensures r.Ok? ==> !PlanActive(r.value, id)
  {
    if id !in plans then Err(NotFound) else Ok(plans[id := plans[id].(isActive := false)])
  }

  function ActiveIds(plans: map<int, Plan>): set<int> {
    set p | p in plans && plans[p].isActive
  }

  function InactiveIds(plans: map<int, Plan>): set<int> {
    set p | p in plans && !plans[p].isActive
  }

  /** `getActivePlan`, and `getAllSubscription`, which selects the same
      rows: the active plans, NotFound when there are none. */
  function ListActive(plans: map<int, Plan>): (r: Result<set<int>>)
    ensures r.Err? <==> forall p :: p in plans ==> !plans[p].isActive
    ensures r.Err? ==> r.error == NotFound
    ensures r.Ok? ==> forall p :: p in r.value <==> p in plans && plans[p].isActive
  {
    var ids := ActiveIds(plans);
    assert forall p :: p in plans && plans[p].isActive ==> p in ids;
    if ids == {} then Err(NotFound)
    else
      NoElementMeansEmpty(ids);
      Ok(ids)
  }

  /** `getInActivePlan`: the inactive plans, NotFound when there are none. */
  function ListInactive(plans: map<int, Plan>): (r: Result<set<int>>)
    ensures r.Err? <==> forall p :: p in plans ==> plans[p].isActive
    ensures r.Err? ==> r.error == NotFound
    ensures r.Ok? ==> forall p :: p in r.value <==> p in plans && !plans[p].isActive
  {
    var ids := InactiveIds(plans);
    assert forall p :: p in plans && !plans[p].isActive ==> p in ids;
    if ids == {} then Err(NotFound)
    else
      NoElementMeansEmpty(ids);
      Ok(ids)
  }

  /** The two listings split the plans: together they cover every plan and
      no plan is in both; when the table is not empty at least one of them
      succeeds. */
  lemma ListingsPartition(plans: map<int, Plan>)
    ensures ActiveIds(plans) + InactiveIds(plans) == plans.Keys
    ensures ActiveIds(plans) * InactiveIds(plans) == {}
    ensures plans != map[] ==> ListActive(plans).Ok? || ListInactive(plans).Ok?
  {
    if plans != map[] {
      assert plans.Keys != {};
      NoElementMeansEmpty(plans.Keys);
      var p :| p in plans.Keys;
      assert p in ActiveIds(plans) || p in InactiveIds(plans);
    }
  }

  /** `getMyPlan`: some ACTIVE subscription of the caller (the one with the
      lowest id), NotFound when there is none. It does not run the sweep. */
  function GetMyPlan(subs: map<int, Subscription>, u: int): (r: Result<int>)
    ensures r.Err? <==> forall k :: k in subs ==> !(subs[k].userId == u && subs[k].status == ACTIVE)
    ensures r.Err? ==> r.error == NotFound
    ensures r.Ok? ==> r.value in subs && subs[r.value].userId == u && subs[r.value].status == ACTIVE
  {
    var active := set k | k in subs && subs[k].userId == u && subs[k].status == ACTIVE;
    assert forall k :: k in subs && subs[k].userId == u && subs[k].status == ACTIVE ==> k in active;
    if active == {} then Err(NotFound)
    else
      NoElementMeansEmpty(active);
      Ok(Min(active))
  }

  /** Read right after a sweep, the record `getMyPlan` reports has not yet
      ended; read at any other time it may have. */
  lemma GetMyPlanAfterSweepIsCurrent(subs: map<int, Subscription>, plans: map<int, Plan>, u: int, now: int)
    requires PositiveDurations(plans)
    requires GetMyPlan(Sweep(subs, plans, now), u).Ok?
    ensures Sweep(subs, plans, now)[GetMyPlan(Sweep(subs, plans, now), u).value].endDate > now
  {
    SweepLeavesNoOverdueActive(subs, plans, now);
  }

  /** No two plans share a name. */
  ghost predicate UniqueNames(plans: map<int, Plan>) {
    forall a, b :: a in plans && b in plans && plans[a].name == plans[b].name ==> a == b
  }

  /** `createSubscription` keeps plan names unique, and a second plan of the
      same name is refused. */
  lemma CreatePlanKeepsNamesUnique(plans: map<int, Plan>, name: string, price: real, durationDays: int,
                                   features: Option<Value>, isActive: Option<bool>)
    requires UniqueNames(plans)
    ensures var r := CreatePlan(plans, name, price, durationDays, features, isActive);
      r.Ok? ==>
        (UniqueNames(r.value.0) && CreatePlan(r.value.0, name, price, durationDays, features, isActive) == Err(Conflict))
  {
    var r := CreatePlan(plans, name, price, durationDays, features, isActive);
    if r.Ok? {
      assert r.value.0[r.value.1].name == name;
    }
  }

  /** `updatePlan` moves the plan between the listings as `is_active`
      says and leaves every other plan, and every name, where it was. */
  lemma UpdatePlanListings(plans: map<int, Plan>, id: int, isActive: Option<bool>, features: Option<Value>)
    requires UpdatePlan(plans, id, isActive, features).Ok?
    ensures var r := UpdatePlan(plans, id, isActive, features).value;
      && ActiveIds(r) - {id} == ActiveIds(plans) - {id}
      && (id in ActiveIds(r) <==> isActive.GetOr(plans[id].isActive))
      && (UniqueNames(plans) ==> UniqueNames(r))
  {
    var r := UpdatePlan(plans, id, isActive, features).value;
    assert forall k :: k in r ==> r[k].name == plans[k].name;
  }

  /** `deletePlan` moves the plan from the active listing to the inactive
      one, moves nothing else, and a second delete changes nothing. */
  lemma DeletePlanMovesToInactive(plans: map<int, Plan>, id: int)
    requires id in plans
    ensures var r := DeletePlan(plans, id).value;
      && ActiveIds(r) == ActiveIds(plans) - {id}
      && InactiveIds(r) == InactiveIds(plans) + {id}
      && DeletePlan(r, id) == Ok(r)
  {
    var r := DeletePlan(plans, id).value;
    assert r[id := r[id].(isActive := false)] == r;
  }
}
