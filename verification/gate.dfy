/** `watchMovie`: the premium gate. FREE movies are open to everyone; a
    PREMIUM movie needs a signed-in caller whose most recent subscription is
    ACTIVE and not past its end. The gate does not run the sweep: it reads
    the newest record as it is, and expires it itself when that record is
    ACTIVE but already past its end. */
module Gate {
  import opened Outcomes
  import opened Schema
  import opened Reconcile

  /** `!currentUser?.id` is false: an id is present and is not 0. */
  predicate SignedIn(callerId: Option<int>) {
    callerId.Some? && callerId.value != 0
  }

  /** The newest subscription of user `u`, of any status. */
  function Latest(subs: map<int, Subscription>, u: int): (r: Option<int>)
    ensures r.None? <==> OwnedBy(subs, u) == {}
    ensures r.Some? ==> r.value in OwnedBy(subs, u)
    ensures r.Some? ==> forall j :: j in OwnedBy(subs, u) ==> subs[j].createdAt <= subs[r.value].createdAt
  {
    if OwnedBy(subs, u) == {} then None else Some(Newest(subs, OwnedBy(subs, u)))
  }

  /** User `u` may watch premium content at `now`: their newest record is
      ACTIVE and its end is not before `now`. */
  predicate Entitled(subs: map<int, Subscription>, u: int, now: int) {
    var l := Latest(subs, u);
    l.Some? && subs[l.value].status == ACTIVE && now <= subs[l.value].endDate
  }

  /** The newest record of `u` is ACTIVE but already past its end. */
  predicate StaleActive(subs: map<int, Subscription>, u: int, now: int) {
    var l := Latest(subs, u);
    l.Some? && subs[l.value].status == ACTIVE && subs[l.value].endDate < now
  }

  function WatchMovie(db: Db, movieId: int, callerId: Option<int>, now: int): (r: Reply<Movie>)
    ensures r.db == db.(subs := r.db.subs, movies := r.db.movies)
    ensures r.out == Err(NotFound) <==> movieId !in db.movies
    ensures r.out == Err(Unauthorized) <==>
      movieId in db.movies && db.movies[movieId].subscriptionType == PREMIUM && !SignedIn(callerId)
    ensures r.out == Err(Forbidden) <==>
      movieId in db.movies && db.movies[movieId].subscriptionType == PREMIUM && SignedIn(callerId) &&
      !Entitled(db.subs, callerId.value, now)
    ensures r.out.Ok? <==>
      movieId in db.movies &&
      (db.movies[movieId].subscriptionType == FREE || (SignedIn(callerId) && Entitled(db.subs, callerId.value, now)))
    ensures r.out.Ok? ==>
      && r.out.value == db.movies[movieId].(viewCount := db.movies[movieId].viewCount + 1)
      && r.db.movies == db.movies[movieId := r.out.value]
      && r.db.subs == db.subs
    ensures r.out.Err? ==> r.db.movies == db.movies
    ensures r.db.subs != db.subs ==>
      && r.out == Err(Forbidden)
      && StaleActive(db.subs, callerId.value, now)
      && var l := Latest(db.subs, callerId.value).value;
         r.db.subs == db.subs[l := db.subs[l].(status := EXPIRED)]
  {
    if movieId !in db.movies then Reply(db, Err(NotFound))
    else
      var movie := db.movies[movieId];
      if movie.subscriptionType == PREMIUM && !SignedIn(callerId) then Reply(db, Err(Unauthorized))
      else if movie.subscriptionType == PREMIUM && !Entitled(db.subs, callerId.value, now) then
        var subs := if StaleActive(db.subs, callerId.value, now)
          then var l := Latest(db.subs, callerId.value).value; db.subs[l := db.subs[l].(status := EXPIRED)]
          else db.subs;
        Reply(db.(subs := subs), Err(Forbidden))
      else
        assert movie.subscriptionType == FREE || (SignedIn(callerId) && Entitled(db.subs, callerId.value, now));
        var watched := movie.(viewCount := movie.viewCount + 1);
        Reply(db.(movies := db.movies[movieId := watched]), Ok(watched))
  }

  /** The gate and the sweep disagree at the boundary: a record whose end is
      exactly `now` still opens premium movies, although the sweep already
      counts it as due. */
  lemma GateAllowsAtEndInstant(db: Db, movieId: int, u: int, now: int)
    requires movieId in db.movies && db.movies[movieId].subscriptionType == PREMIUM && u != 0
    requires Latest(db.subs, u).Some?
    requires var l := Latest(db.subs, u).value; db.subs[l].status == ACTIVE && db.subs[l].endDate == now
    ensures WatchMovie(db, movieId, Some(u), now).out.Ok?
    ensures Overdue(db.subs[Latest(db.subs, u).value], now)
  {
  }

  /** Once the sweep has run at `now` (and every plan lasts at least a day),
      the gate never writes: no ACTIVE record is past its end. */
  lemma GateAfterSweepNeverWrites(db: Db, movieId: int, callerId: Option<int>, now: int)
    requires PositiveDurations(db.plans)
    requires db.subs == Sweep(db.subs, db.plans, now)
    ensures WatchMovie(db, movieId, callerId, now).db.subs == db.subs
  {
    SweepLeavesNoOverdueActive(db.subs, db.plans, now);
  }

  /** On a swept state the gate's verdict depends on the status alone: a
      signed-in user is let in exactly when their newest record is ACTIVE. */
  lemma SweptGateIsStatusOnly(db: Db, u: int, now: int)
    requires PositiveDurations(db.plans)
    requires db.subs == Sweep(db.subs, db.plans, now)
    ensures Entitled(db.subs, u, now) <==>
      Latest(db.subs, u).Some? && db.subs[Latest(db.subs, u).value].status == ACTIVE
  {
    SweepLeavesNoOverdueActive(db.subs, db.plans, now);
  }

  /** A record the gate expires is one the sweep would also have selected. */
  lemma GateExpiresOnlyOverdue(subs: map<int, Subscription>, u: int, now: int)
    requires StaleActive(subs, u, now)
    ensures Overdue(subs[Latest(subs, u).value], now)
  {
  }
}
