/** `PaymentsService.create` and `update`: recording a payment, and the
    activation a COMPLETED payment forces on its subscription. */
module Payments {
  import opened Outcomes
  import opened Json
  import opened Ids
  import opened Schema

  /** Sets subscription `id` to ACTIVE whatever its status was. */
  function Activate(subs: map<int, Subscription>, id: int): (r: map<int, Subscription>)
    ensures r.Keys == subs.Keys
    ensures id in subs ==> r[id].status == ACTIVE
    ensures id in subs ==> r[id] == subs[id].(status := r[id].status)
    ensures forall k :: k in subs && k != id ==> r[k] == subs[k]
  {
    if id in subs then subs[id := subs[id].(status := ACTIVE)] else subs
  }

  /** Activating an ACTIVE subscription changes nothing. */
  lemma ActivateIdempotent(subs: map<int, Subscription>, id: int)
    requires id in subs && subs[id].status == ACTIVE
    ensures Activate(subs, id) == subs
  {
    assert subs[id].(status := ACTIVE) == subs[id];
  }

  /** `create`: record a payment for subscription `subId`. A USER may pay
      only for their own subscription. The stored status is the column
      default `initial`; a COMPLETED one activates the subscription. */
  function CreatePayment(db: Db, caller: Caller, subId: int, amount: real, payMethod: string,
                         details: Option<Value>, initial: PaymentStatus): (r: Reply<int>)
    ensures r.out.Err? ==> r.db == db
    ensures r.out == Err(NotFound) <==> subId !in db.subs
    ensures r.out == Err(Forbidden) <==> subId in db.subs && caller.role == USER && db.subs[subId].userId != caller.id
    ensures r.out.Ok? <==> subId in db.subs && (caller.role != USER || db.subs[subId].userId == caller.id)
    ensures r.out.Ok? ==>
      var id := r.out.value;
      && id !in db.payments
      && r.db.payments == db.payments[id := Payment(subId, amount, payMethod, details.GetOr(Obj([])), initial)]
      && r.db.subs == (if initial == COMPLETED then Activate(db.subs, subId) else db.subs)
      && r.db == db.(payments := r.db.payments, subs := r.db.subs)
  {
    if subId !in db.subs then Reply(db, Err(NotFound))
    else if caller.role == USER && db.subs[subId].userId != caller.id then Reply(db, Err(Forbidden))
    else
      var id := FreshId(db.payments.Keys);
      var payment := Payment(subId, amount, payMethod, details.GetOr(Obj([])), initial);
      var subs := if payment.status == COMPLETED then Activate(db.subs, subId) else db.subs;
      Reply(db.(payments := db.payments[id := payment], subs := subs), Ok(id))
  }

  /** `update`: change a payment's status. Setting it to COMPLETED forces
      the linked subscription to ACTIVE, even a CANCELED or EXPIRED one. */
  function UpdatePayment(db: Db, id: int, status: Option<PaymentStatus>): (r: Reply<Payment>)
    ensures r.out.Err? ==> r.db == db
    ensures r.out == Err(NotFound) <==> id !in db.payments
    ensures r.out.Ok? <==> id in db.payments
    ensures r.out.Ok? ==>
      var prev := db.payments[id];
      && r.out.value == prev.(status := status.GetOr(prev.status))
      && r.db.payments == db.payments[id := r.out.value]
      && r.db.subs == (if status == Some(COMPLETED) then Activate(db.subs, prev.subscriptionId) else db.subs)
      && r.db == db.(payments := r.db.payments, subs := r.db.subs)
  {
    if id !in db.payments then Reply(db, Err(NotFound))
    else
      var prev := db.payments[id];
      var updated := prev.(status := status.GetOr(prev.status));
      var subs := if status == Some(COMPLETED) then Activate(db.subs, prev.subscriptionId) else db.subs;
      Reply(db.(payments := db.payments[id := updated], subs := subs), Ok(updated))
  }

  /** Completing a payment of a subscription the user cancelled makes that
      subscription ACTIVE again. */
  lemma CompletingRevivesCanceled(db: Db, id: int)
    requires id in db.payments && db.payments[id].subscriptionId in db.subs
    requires db.subs[db.payments[id].subscriptionId].status == CANCELED
    ensures UpdatePayment(db, id, Some(COMPLETED)).db.subs[db.payments[id].subscriptionId].status == ACTIVE
  {
  }

  /** Completing the same payment twice has the effect of completing it
      once. */
  lemma CompletingTwiceIsOnce(db: Db, id: int)
    requires id in db.payments
    ensures var once := UpdatePayment(db, id, Some(COMPLETED)).db;
      UpdatePayment(once, id, Some(COMPLETED)).db == once
  {
    var once := UpdatePayment(db, id, Some(COMPLETED)).db;
    var subId := db.payments[id].subscriptionId;
    if subId in db.subs {
      ActivateIdempotent(once.subs, subId);
    }
    assert once.payments[id].(status := COMPLETED) == once.payments[id];
  }

  /** Activating a subscription keeps "at most one live record per user"
      exactly when no other record of its owner is live. */
  lemma ActivateKeepsOneLiveIff(subs: map<int, Subscription>, id: int)
    requires OneLivePerUser(subs) && id in subs
    ensures OneLivePerUser(Activate(subs, id)) <==> LiveOf(subs, subs[id].userId) <= {id}
  {
    var r := Activate(subs, id);
    var u := subs[id].userId;
    if LiveOf(subs, u) <= {id} {
      forall a, b | a in r && b in r && a != b && IsLive(r[a].status) && IsLive(r[b].status)
        ensures r[a].userId != r[b].userId
      {
        if a == id {
          assert b !in LiveOf(subs, u);
        } else if b == id {
          assert a !in LiveOf(subs, u);
        }
      }
    } else {
      var k :| k in LiveOf(subs, u) && k != id;
      assert r[k] == subs[k] && IsLive(r[id].status);
    }
  }

  /** A created payment keeps "at most one live record per user" exactly
      when it does not complete, or completes the owner's only live
      record, or one whose owner has none. */
  lemma CreatePaymentOneLive(db: Db, caller: Caller, subId: int, amount: real, payMethod: string,
                             details: Option<Value>, initial: PaymentStatus)
    requires OneLivePerUser(db.subs)
    requires CreatePayment(db, caller, subId, amount, payMethod, details, initial).out.Ok?
    ensures OneLivePerUser(CreatePayment(db, caller, subId, amount, payMethod, details, initial).db.subs)
      <==> initial != COMPLETED || LiveOf(db.subs, db.subs[subId].userId) <= {subId}
  {
    if initial == COMPLETED {
      ActivateKeepsOneLiveIff(db.subs, subId);
    }
  }

  /** Completing a payment whose subscription was CANCELED while its owner
      holds another live record leaves that owner with two live records. */
  lemma CompletingCanBreakOneLive()
    ensures var db := Db(map[], map[],
                         map[1 := Subscription(7, 1, 0, 1000, CANCELED, false, 0),
                             2 := Subscription(7, 1, 0, 1000, ACTIVE, false, 0)],
                         map[1 := Payment(1, 10.0, "card", Obj([]), NotCompleted("PENDING"))], map[]);
            OneLivePerUser(db.subs) && !OneLivePerUser(UpdatePayment(db, 1, Some(COMPLETED)).db.subs)
  {
    var db := Db(map[], map[],
                 map[1 := Subscription(7, 1, 0, 1000, CANCELED, false, 0),
                     2 := Subscription(7, 1, 0, 1000, ACTIVE, false, 0)],
                 map[1 := Payment(1, 10.0, "card", Obj([]), NotCompleted("PENDING"))], map[]);
    assert forall a :: a in db.subs && IsLive(db.subs[a].status) ==> a == 2;
    ActivateKeepsOneLiveIff(db.subs, 1);
    assert 2 in LiveOf(db.subs, 7);
  }
}
