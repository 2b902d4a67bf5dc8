/** `expireSubscriptions`, the sweep that runs every second and at the start
    of every subscription endpoint. Every record with `end_date <= now`
    whose status is ACTIVE or EXPIRED is either renewed for the plan's
    duration (auto-renew on and the plan active) or marked EXPIRED. */
module Reconcile {
  import opened Schema

  /** The sweep's selection. EXPIRED records are selected too, so a record
      that failed to renew is retried on every pass. */
  predicate Overdue(s: Subscription, now: int) {
    s.endDate <= now && (s.status == ACTIVE || s.status == EXPIRED)
  }

  /** An overdue record is renewed rather than expired. A record whose plan
      row is absent is treated like one whose plan is inactive. */
  predicate Renews(s: Subscription, plans: map<int, Plan>) {
    s.autoRenew && PlanActive(plans, s.planId)
  }

  /** The sweep applied to one record. Ownership, plan, auto-renew flag and
      creation time never change; PENDENG and CANCELED records and records
      that are not yet due are left as they are. */
  function SweepOne(s: Subscription, plans: map<int, Plan>, now: int): (r: Subscription)
    ensures r.userId == s.userId && r.planId == s.planId
    ensures r.autoRenew == s.autoRenew && r.createdAt == s.createdAt
    ensures !Overdue(s, now) ==> r == s
    ensures r != s ==> r.status == ACTIVE || r.status == EXPIRED
  {
    if !Overdue(s, now) then s
    else if Renews(s, plans) then
      s.(startDate := now, endDate := now + plans[s.planId].durationDays * DayMs, status := ACTIVE)
    else
      s.(status := EXPIRED)
  }

  /** The sweep over the whole table at one instant `now`. */
  function Sweep(subs: map<int, Subscription>, plans: map<int, Plan>, now: int): (r: map<int, Subscription>)
    ensures r.Keys == subs.Keys
    ensures forall k :: k in subs && !Overdue(subs[k], now) ==> r[k] == subs[k]
    ensures forall k :: k in subs && (subs[k].status == PENDENG || subs[k].status == CANCELED) ==> r[k] == subs[k]
    ensures forall k :: k in subs && Overdue(subs[k], now) && Renews(subs[k], plans) ==>
      r[k] == subs[k].(startDate := now, endDate := now + plans[subs[k].planId].durationDays * DayMs, status := ACTIVE)
    ensures forall k :: k in subs && Overdue(subs[k], now) && !Renews(subs[k], plans) ==>
      r[k] == subs[k].(status := EXPIRED)
  {
    map k | k in subs :: SweepOne(subs[k], plans, now)
  }

  /** Every plan lasts at least one day. */
  predicate PositiveDurations(plans: map<int, Plan>) {
    forall p :: p in plans ==> plans[p].durationDays >= 1
  }

  /** After a sweep no ACTIVE record is due any more, provided every plan
      lasts at least a day: an ACTIVE record ends strictly after `now`. */
  lemma SweepLeavesNoOverdueActive(subs: map<int, Subscription>, plans: map<int, Plan>, now: int)
    requires PositiveDurations(plans)
    ensures forall k :: k in Sweep(subs, plans, now) && Sweep(subs, plans, now)[k].status == ACTIVE ==>
      Sweep(subs, plans, now)[k].endDate > now
  {
    var r := Sweep(subs, plans, now);
    forall k | k in r && r[k].status == ACTIVE
      ensures r[k].endDate > now
    {
      var s := subs[k];
      if Overdue(s, now) && Renews(s, plans) {
        assert plans[s.planId].durationDays * DayMs >= DayMs;
      }
    }
  }

  /** A second sweep at the same instant changes nothing. */
  lemma SweepIdempotent(subs: map<int, Subscription>, plans: map<int, Plan>, now: int)
    ensures Sweep(Sweep(subs, plans, now), plans, now) == Sweep(subs, plans, now)
  {
    var once := Sweep(subs, plans, now);
    var twice := Sweep(once, plans, now);
    forall k | k in once
      ensures twice[k] == once[k]
    {
      assert SweepOne(once[k], plans, now) == once[k];
    }
  }
}
