/** The subscription endpoints of `UserSubscriptionsService`: `create`,
    `myUpdate`, `update`, `myDelete` and `delete`. Every one of them runs the
    sweep first, and the sweep's writes stay in the database even when the
    endpoint then throws. */
module Lifecycle {
  import opened Outcomes
  import opened Ids
  import opened Schema
  import opened Reconcile

  function Swept(db: Db, now: int): Db {
    db.(subs := Sweep(db.subs, db.plans, now))
  }

  /** The user a `create` is for: the caller when the role is USER, the
      request's `user_id` otherwise (absent when an admin omits it). */
  function Subject(caller: Caller, userId: Option<int>): Option<int> {
    if caller.role == USER then Some(caller.id) else userId
  }

  predicate UserUsable(users: map<int, User>, u: int) {
    u in users && users[u].status
  }

  /** User `u` already holds a live record on plan `planId`. */
  predicate HasLiveOn(subs: map<int, Subscription>, u: int, planId: int) {
    exists k :: k in subs && subs[k].userId == u && subs[k].planId == planId && IsLive(subs[k].status)
  }

  /** The `updateMany` that cancels every live record of `u`. */
  function CancelLive(subs: map<int, Subscription>, u: int): (r: map<int, Subscription>)
    ensures r.Keys == subs.Keys
    ensures LiveOf(r, u) == {}
    ensures forall k :: k in subs && k !in LiveOf(subs, u) ==> r[k] == subs[k]
    ensures forall k :: k in LiveOf(subs, u) ==> r[k] == subs[k].(status := CANCELED)
  {
    var r := map k | k in subs :: if subs[k].userId == u && IsLive(subs[k].status) then subs[k].(status := CANCELED) else subs[k];
    NoElementMeansEmpty(LiveOf(r, u));
    r
  }

  /** `create`: subscribe a user to a plan. The new record starts PENDENG
      with the one-minute lifetime, and every other live record of the user
      is cancelled, so the new one is the user's only live record. */
  function Create(db: Db, caller: Caller, userId: Option<int>, planId: int, autoRenew: Option<bool>, now: int): (r: Reply<int>)
    ensures r.db == Swept(db, now).(subs := r.db.subs)
    ensures r.out.Err? ==> r.db == Swept(db, now)
    ensures r.out == Err(BadRequest) <==> Subject(caller, userId).None?
    ensures r.out == Err(NotFound) <==>
      Subject(caller, userId).Some? &&
      (!UserUsable(db.users, Subject(caller, userId).value) || !PlanActive(db.plans, planId))
    ensures r.out == Err(Conflict) <==>
      Subject(caller, userId).Some? &&
      UserUsable(db.users, Subject(caller, userId).value) && PlanActive(db.plans, planId) &&
      HasLiveOn(Sweep(db.subs, db.plans, now), Subject(caller, userId).value, planId)
    ensures r.out.Ok? <==>
      Subject(caller, userId).Some? &&
      UserUsable(db.users, Subject(caller, userId).value) && PlanActive(db.plans, planId) &&
      !HasLiveOn(Sweep(db.subs, db.plans, now), Subject(caller, userId).value, planId)
    ensures r.out.Ok? ==>
      var u := Subject(caller, userId).value;
      var swept := Sweep(db.subs, db.plans, now);
      var id := r.out.value;
      && id !in db.subs
      && r.db.subs.Keys == db.subs.Keys + {id}
      && r.db.subs[id] == Subscription(u, planId, now, now + LifetimeMs, PENDENG, autoRenew.GetOr(false), now)
      && LiveOf(r.db.subs, u) == {id}
      && (forall k :: k in swept && k !in LiveOf(swept, u) ==> r.db.subs[k] == swept[k])
      && (forall k :: k in LiveOf(swept, u) ==> r.db.subs[k] == swept[k].(status := CANCELED))
  {
    var swept := Swept(db, now);
    match Subject(caller, userId)
    case None => Reply(swept, Err(BadRequest))
    case Some(u) =>
      if !UserUsable(db.users, u) || !PlanActive(db.plans, planId) then Reply(swept, Err(NotFound))
      else if HasLiveOn(swept.subs, u, planId) then Reply(swept, Err(Conflict))
      else
        var rec := Subscription(u, planId, now, now + LifetimeMs, PENDENG, autoRenew.GetOr(false), now);
        var (subs', id) := Enrol(swept.subs, rec);
        Reply(swept.(subs := subs'), Ok(id))
  }

  /** The writes of a successful `create`: cancel the owner's live records,
      then insert `rec` under the next id, which leaves it the owner's only
      live record. */
  function Enrol(subs: map<int, Subscription>, rec: Subscription): (r: (map<int, Subscription>, int))
    requires IsLive(rec.status)
    ensures r.1 !in subs
    ensures r.0.Keys == subs.Keys + {r.1}
    ensures r.0[r.1] == rec
    ensures LiveOf(r.0, rec.userId) == {r.1}
    ensures forall k :: k in subs && k !in LiveOf(subs, rec.userId) ==> r.0[k] == subs[k]
    ensures forall k :: k in LiveOf(subs, rec.userId) ==> r.0[k] == subs[k].(status := CANCELED)
  {
    var id := FreshId(subs.Keys);
    var cancelled := CancelLive(subs, rec.userId);
    var subs' := cancelled[id := rec];
    assert LiveOf(subs', rec.userId) == {id} by {
      forall k | k in subs' && k != id
        ensures k !in LiveOf(subs', rec.userId)
      {
        assert k !in LiveOf(cancelled, rec.userId);
      }
    }
    (subs', id)
  }

  /** A successful `create` keeps "at most one live record per user", as
      long as the state it found after its sweep satisfied it. */
  lemma CreateKeepsOneLive(db: Db, caller: Caller, userId: Option<int>, planId: int, autoRenew: Option<bool>, now: int)
    requires OneLivePerUser(Sweep(db.subs, db.plans, now))
    ensures OneLivePerUser(Create(db, caller, userId, planId, autoRenew, now).db.subs)
  {
    var r := Create(db, caller, userId, planId, autoRenew, now);
    var swept := Sweep(db.subs, db.plans, now);
    if r.out.Ok? {
      var u := Subject(caller, userId).value;
      var id := r.out.value;
      var subs := r.db.subs;
      forall a, b | a in subs && b in subs && a != b && IsLive(subs[a].status) && IsLive(subs[b].status)
        ensures subs[a].userId != subs[b].userId
      {
        if a == id {
          assert b !in LiveOf(subs, u);
        } else if b == id {
          assert a !in LiveOf(subs, u);
        } else {
          assert a !in LiveOf(swept, u) && b !in LiveOf(swept, u);
        }
      }
    }
  }

  /** The records the sweep would bring back from EXPIRED to ACTIVE. */
  predicate HasRevivable(subs: map<int, Subscription>, plans: map<int, Plan>, now: int) {
    exists k :: k in subs && subs[k].status == EXPIRED && subs[k].endDate <= now && Renews(subs[k], plans)
  }

  /** The sweep keeps "at most one live record per user" when it has no
      EXPIRED record to revive. */
  lemma SweepKeepsOneLive(subs: map<int, Subscription>, plans: map<int, Plan>, now: int)
    requires OneLivePerUser(subs)
    requires !HasRevivable(subs, plans, now)
    ensures OneLivePerUser(Sweep(subs, plans, now))
  {
    var r := Sweep(subs, plans, now);
    forall k | k in r && IsLive(r[k].status)
      ensures IsLive(subs[k].status) && r[k].userId == subs[k].userId
    {
    }
  }

  /** Reviving EXPIRED records does break the invariant: a user whose
      auto-renewing subscription was expired (by an administrator's `delete`,
      or while its plan was inactive) and who then subscribed again ends up,
      after the next sweep, with two live records. */
  lemma SweepCanReviveSecondLive()
    ensures var plans := map[1 := Plan("Premium", 10.0, 30, None, true)];
            var subs := map[1 := Subscription(7, 1, 0, 100, EXPIRED, true, 0),
                            2 := Subscription(7, 1, 150, 150 + LifetimeMs, PENDENG, false, 150)];
            OneLivePerUser(subs) && !OneLivePerUser(Sweep(subs, plans, 200))
  {
    var plans := map[1 := Plan("Premium", 10.0, 30, None, true)];
    var subs := map[1 := Subscription(7, 1, 0, 100, EXPIRED, true, 0),
                    2 := Subscription(7, 1, 150, 150 + LifetimeMs, PENDENG, false, 150)];
    var r := Sweep(subs, plans, 200);
    assert r[1].status == ACTIVE && r[2] == subs[2];
    assert forall a :: a in subs && IsLive(subs[a].status) ==> a == 2;
  }

  /** Record `id` is one `myUpdate` may pick for user `u`: a newest record
      among the user's live ones, or among all of theirs when none is
      live. */
  predicate IsMyTarget(subs: map<int, Subscription>, u: int, id: int) {
    var pool := if LiveOf(subs, u) != {} then LiveOf(subs, u) else OwnedBy(subs, u);
    id in pool && forall j :: j in pool ==> subs[j].createdAt <= subs[id].createdAt
  }

  /** The record `myUpdate` and the gate-free lookups pick for user `u`: the
      newest live record, or failing that the newest record of any status. */
  function MyTarget(subs: map<int, Subscription>, u: int): (r: Option<int>)
    ensures r.None? <==> OwnedBy(subs, u) == {}
    ensures r.Some? ==> IsMyTarget(subs, u, r.value)
  {
    if LiveOf(subs, u) != {} then Some(Newest(subs, LiveOf(subs, u)))
    else if OwnedBy(subs, u) != {} then Some(Newest(subs, OwnedBy(subs, u)))
    else
      assert LiveOf(subs, u) <= OwnedBy(subs, u);
      None
  }

  /** `myUpdate`: the caller switches auto-renewal of their current record
      on or off; switching it off also cuts the record to one more minute. */
  function MyUpdate(db: Db, callerId: int, autoRenew: Option<bool>, now: int): (r: Reply<int>)
    ensures r.db == Swept(db, now).(subs := r.db.subs)
    ensures r.out.Err? ==> r.db == Swept(db, now)
    ensures r.out == Err(BadRequest) <==> autoRenew.None?
    ensures r.out == Err(NotFound) <==> autoRenew.Some? && OwnedBy(Sweep(db.subs, db.plans, now), callerId) == {}
    ensures r.out.Ok? <==> autoRenew.Some? && OwnedBy(Sweep(db.subs, db.plans, now), callerId) != {}
    ensures r.out.Ok? ==>
      var swept := Sweep(db.subs, db.plans, now);
      var id := r.out.value;
      && IsMyTarget(swept, callerId, id)
      && r.db.subs.Keys == swept.Keys
      && (forall k :: k in swept && k != id ==> r.db.subs[k] == swept[k])
      && r.db.subs[id].autoRenew == autoRenew.value
      && r.db.subs[id].endDate == (if autoRenew.value then swept[id].endDate else now + LifetimeMs)
      && r.db.subs[id] == swept[id].(autoRenew := r.db.subs[id].autoRenew, endDate := r.db.subs[id].endDate)
  {
    var swept := Swept(db, now);
    match autoRenew
    case None => Reply(swept, Err(BadRequest))
    case Some(on) =>
      match MyTarget(swept.subs, callerId)
      case None => Reply(swept, Err(NotFound))
      case Some(id) =>
        Reply(swept.(subs := SetAutoRenew(swept.subs, id, on, now)), Ok(id))
  }

  /** The write of `myUpdate`: record `id` gets the flag, and switching it
      off also cuts the record to one more minute. */
  function SetAutoRenew(subs: map<int, Subscription>, id: int, on: bool, now: int): (r: map<int, Subscription>)
    requires id in subs
    ensures r.Keys == subs.Keys
    ensures forall k :: k in subs && k != id ==> r[k] == subs[k]
    ensures r[id].autoRenew == on
    ensures r[id].endDate == (if on then subs[id].endDate else now + LifetimeMs)
    ensures r[id] == subs[id].(autoRenew := r[id].autoRenew, endDate := r[id].endDate)
  {
    var prev := subs[id];
    subs[id := if on then prev.(autoRenew := true) else prev.(autoRenew := false, endDate := now + LifetimeMs)]
  }

  /** The optional fields of an administrator's `update`. */
  datatype SubPatch = SubPatch(
    userId: Option<int>,
    planId: Option<int>,
    status: Option<SubStatus>,
    startDate: Option<int>,
    endDate: Option<int>,
    autoRenew: Option<bool>)

  predicate IsEmptyPatch(p: SubPatch) {
    p.userId.None? && p.planId.None? && p.status.None? && p.startDate.None? && p.endDate.None? && p.autoRenew.None?
  }

  /** The lookups of `update` that fail with NotFound: the record itself, a
      new owner (any user row, active or not) and a new plan (active only). */
  predicate UpdateTargetsMissing(db: Db, id: int, p: SubPatch) {
    || id !in db.subs
    || (p.userId.Some? && p.userId.value !in db.users)
    || (p.planId.Some? && !PlanActive(db.plans, p.planId.value))
  }

  /** The end date `update` stores. A supplied end date wins; otherwise
      turning auto-renewal off gives one minute from now, and a new plan or
      start date gives one minute from the (new) start. */
  function PatchedEnd(prev: Subscription, p: SubPatch, now: int): int {
    if p.endDate.Some? then p.endDate.value
    else if p.autoRenew == Some(false) then now + LifetimeMs
    else if p.planId.Some? || p.startDate.Some? then p.startDate.GetOr(prev.startDate) + LifetimeMs
    else prev.endDate
  }

  /** `update`: an administrator edits any field of a record. */
  function Update(db: Db, id: int, p: SubPatch, now: int): (r: Reply<Subscription>)
    ensures r.db == Swept(db, now).(subs := r.db.subs)
    ensures r.out.Err? ==> r.db == Swept(db, now)
    ensures r.out == Err(NotFound) <==> UpdateTargetsMissing(db, id, p)
    ensures r.out == Err(BadRequest) <==> !UpdateTargetsMissing(db, id, p) && IsEmptyPatch(p)
    ensures r.out.Ok? <==> !UpdateTargetsMissing(db, id, p) && !IsEmptyPatch(p)
    ensures r.out.Ok? ==>
      var prev := Sweep(db.subs, db.plans, now)[id];
      var n := r.out.value;
      && r.db.subs == Sweep(db.subs, db.plans, now)[id := n]
      && n.userId == p.userId.GetOr(prev.userId)
      && n.planId == p.planId.GetOr(prev.planId)
      && n.status == p.status.GetOr(prev.status)
      && n.startDate == p.startDate.GetOr(prev.startDate)
      && n.autoRenew == p.autoRenew.GetOr(prev.autoRenew)
      && n.createdAt == prev.createdAt
      && (p.endDate.Some? ==> n.endDate == p.endDate.value)
      && (p.endDate.None? && p.autoRenew == Some(false) ==> n.endDate == now + LifetimeMs)
      && (p.endDate.None? && p.autoRenew != Some(false) && (p.planId.Some? || p.startDate.Some?) ==>
            n.endDate == n.startDate + LifetimeMs)
      && (p.endDate.None? && p.autoRenew != Some(false) && p.planId.None? && p.startDate.None? ==>
            n.endDate == prev.endDate)
  {
    var swept := Swept(db, now);
    if UpdateTargetsMissing(db, id, p) then Reply(swept, Err(NotFound))
    else if IsEmptyPatch(p) then Reply(swept, Err(BadRequest))
    else
      var prev := swept.subs[id];
      var n := Subscription(
        p.userId.GetOr(prev.userId),
        p.planId.GetOr(prev.planId),
        p.startDate.GetOr(prev.startDate),
        PatchedEnd(prev, p, now),
        p.status.GetOr(prev.status),
        p.autoRenew.GetOr(prev.autoRenew),
        prev.createdAt);
      Reply(swept.(subs := swept.subs[id := n]), Ok(n))
  }

  /** `myDelete`: the caller cancels their newest live record, which also
      stops auto-renewal and ends the record now. */
  function MyDelete(db: Db, callerId: int, now: int): (r: Reply<int>)
    ensures r.db == Swept(db, now).(subs := r.db.subs)
    ensures r.out.Err? ==> r.db == Swept(db, now) && r.out.error == NotFound
    ensures r.out.Err? <==> LiveOf(Sweep(db.subs, db.plans, now), callerId) == {}
    ensures r.out.Ok? ==>
      var swept := Sweep(db.subs, db.plans, now);
      var id := r.out.value;
      && id in LiveOf(swept, callerId)
      && (forall j :: j in LiveOf(swept, callerId) ==> swept[j].createdAt <= swept[id].createdAt)
      && r.db.subs == swept[id := swept[id].(status := CANCELED, autoRenew := false, endDate := now)]
      && LiveOf(r.db.subs, callerId) == LiveOf(swept, callerId) - {id}
  {
    var swept := Swept(db, now);
    var live := LiveOf(swept.subs, callerId);
    if live == {} then Reply(swept, Err(NotFound))
    else
      var id := Newest(swept.subs, live);
      var subs' := swept.subs[id := swept.subs[id].(status := CANCELED, autoRenew := false, endDate := now)];
      assert LiveOf(subs', callerId) == live - {id};
      Reply(swept.(subs := subs'), Ok(id))
  }

  /** A record the caller cancelled stays cancelled: no later sweep touches
      it. */
  lemma MyDeleteSticks(db: Db, callerId: int, now: int, later: int)
    requires MyDelete(db, callerId, now).out.Ok?
    ensures var r := MyDelete(db, callerId, now);
      Sweep(r.db.subs, r.db.plans, later)[r.out.value].status == CANCELED
  {
  }

  /** `delete`: an administrator marks any record EXPIRED, whatever its
      status was, CANCELED included. */
  function Delete(db: Db, id: int, now: int): (r: Reply<()>)
    ensures r.db == Swept(db, now).(subs := r.db.subs)
    ensures r.out.Err? ==> r.db == Swept(db, now) && r.out.error == NotFound
    ensures r.out.Err? <==> id !in db.subs
    ensures r.out.Ok? ==>
      var swept := Sweep(db.subs, db.plans, now);
      && r.db.subs == swept[id := swept[id].(status := EXPIRED)]
      && LiveOf(r.db.subs, swept[id].userId) == LiveOf(swept, swept[id].userId) - {id}
  {
    var swept := Swept(db, now);
    if id !in swept.subs then Reply(swept, Err(NotFound))
    else
      var subs' := swept.subs[id := swept.subs[id].(status := EXPIRED)];
      assert LiveOf(subs', swept.subs[id].userId) == LiveOf(swept.subs, swept.subs[id].userId) - {id};
      Reply(swept.(subs := subs'), Ok(()))
  }

  /** Unlike a cancellation, an administrator's `delete` does not stick: the
      sweep selects EXPIRED records, so an auto-renewing record on an active
      plan comes back ACTIVE once its end date has passed. */
  lemma DeleteDoesNotStick()
    ensures var db := Db(map[], map[1 := Plan("Premium", 10.0, 30, None, true)],
                         map[1 := Subscription(7, 1, 0, 1000, ACTIVE, true, 0)], map[], map[]);
            var r := Delete(db, 1, 500);
            r.out.Ok? && r.db.subs[1].status == EXPIRED &&
            Sweep(r.db.subs, r.db.plans, 2000)[1].status == ACTIVE
  {
    var db := Db(map[], map[1 := Plan("Premium", 10.0, 30, None, true)],
                 map[1 := Subscription(7, 1, 0, 1000, ACTIVE, true, 0)], map[], map[]);
    assert Sweep(db.subs, db.plans, 500)[1] == db.subs[1];
  }

  /** `myUpdate` touches neither status nor owner, so every user's set of
      live records is the one the sweep left, and "at most one live record
      per user" survives it. */
  lemma MyUpdateKeepsLiveSets(db: Db, callerId: int, autoRenew: Option<bool>, now: int)
    ensures var swept := Sweep(db.subs, db.plans, now);
      var r := MyUpdate(db, callerId, autoRenew, now);
      && (forall u :: LiveOf(r.db.subs, u) == LiveOf(swept, u))
      && (OneLivePerUser(swept) ==> OneLivePerUser(r.db.subs))
  {
    var swept := Sweep(db.subs, db.plans, now);
    var r := MyUpdate(db, callerId, autoRenew, now);
    assert forall k :: k in r.db.subs ==>
      k in swept && r.db.subs[k].status == swept[k].status && r.db.subs[k].userId == swept[k].userId;
  }

  /** An administrator's `update` that sends neither a status nor an owner
      keeps "at most one live record per user". */
  lemma UpdateKeepsOneLive(db: Db, id: int, p: SubPatch, now: int)
    requires OneLivePerUser(Sweep(db.subs, db.plans, now))
    requires p.status.None? && p.userId.None?
    ensures OneLivePerUser(Update(db, id, p, now).db.subs)
  {
    var swept := Sweep(db.subs, db.plans, now);
    var r := Update(db, id, p, now);
    assert forall k :: k in r.db.subs ==>
      k in swept && r.db.subs[k].status == swept[k].status && r.db.subs[k].userId == swept[k].userId;
  }

  /** A status sent through `update` is written as it is: setting a
      CANCELED record ACTIVE gives its owner a second live record. */
  lemma UpdateCanBreakOneLive()
    ensures var db := Db(map[], map[], map[1 := Subscription(7, 1, 0, 1000, ACTIVE, false, 0),
                                           2 := Subscription(7, 1, 0, 1000, CANCELED, false, 0)], map[], map[]);
            var r := Update(db, 2, SubPatch(None, None, Some(ACTIVE), None, None, None), 500);
            && OneLivePerUser(db.subs)
            && r.out.Ok? && !OneLivePerUser(r.db.subs)
  {
    var db := Db(map[], map[], map[1 := Subscription(7, 1, 0, 1000, ACTIVE, false, 0),
                                   2 := Subscription(7, 1, 0, 1000, CANCELED, false, 0)], map[], map[]);
    assert Sweep(db.subs, db.plans, 500) == db.subs;
    assert forall a :: a in db.subs && IsLive(db.subs[a].status) ==> a == 1;
    var r := Update(db, 2, SubPatch(None, None, Some(ACTIVE), None, None, None), 500);
    assert r.out.Ok?;
    assert r.db.subs[2].status == ACTIVE && r.db.subs[1] == db.subs[1];
  }

  /** An administrator's `delete` only ever removes a live record, so it
      keeps "at most one live record per user". */
  lemma DeleteKeepsOneLive(db: Db, id: int, now: int)
    requires OneLivePerUser(Sweep(db.subs, db.plans, now))
    ensures OneLivePerUser(Delete(db, id, now).db.subs)
  {
    var swept := Sweep(db.subs, db.plans, now);
    if id in db.subs {
      ExpireKeepsOneLive(swept, id);
    }
  }

  /** Expiring one record never adds a live record. */
  lemma ExpireKeepsOneLive(subs: map<int, Subscription>, id: int)
    requires OneLivePerUser(subs) && id in subs
    ensures OneLivePerUser(subs[id := subs[id].(status := EXPIRED)])
  {
    var e := subs[id := subs[id].(status := EXPIRED)];
    assert forall k :: k in e && IsLive(e[k].status) ==> k in subs && IsLive(subs[k].status) && e[k].userId == subs[k].userId;
  }
}
