/** `WatchHistoryService.saveWatchHistory`: how far a user has watched a
    movie, one row per (user, movie), created on the first save and updated
    in place afterwards. The clock enters as `now`. */
module WatchHistory {
  import opened Outcomes
  import opened Ids
  import opened Schema

  /** A row of `watch_histroy`. `lastWatched` is `None` when the service
      leaves the column to its database default. */
  datatype WatchRow = WatchRow(userId: int, movieId: int, watchedDuration: real,
                               watchedPercentage: real, lastWatched: Option<int>)

  /** The share of the movie watched, in percent: the watched duration over
      the movie's `duration_minutes`, capped at 100; 0 for a movie whose
      duration is not positive. */
  function Percentage(watched: real, durationMinutes: int): (p: real)
    requires watched >= 0.0
    ensures 0.0 <= p <= 100.0
    ensures durationMinutes <= 0 ==> p == 0.0
  {
    var raw := if durationMinutes > 0 then watched / durationMinutes as real * 100.0 else 0.0;
    if raw < 100.0 then raw else 100.0
  }

  /** The cap is reached exactly when the whole duration has been watched,
      and below it the percentage is the watched share. */
  lemma PercentageFull(watched: real, durationMinutes: int)
    requires watched >= 0.0 && durationMinutes > 0
    ensures Percentage(watched, durationMinutes) == 100.0 <==> watched >= durationMinutes as real
    ensures watched < durationMinutes as real ==>
      Percentage(watched, durationMinutes) * durationMinutes as real == watched * 100.0
  {
    var d := durationMinutes as real;
    assert watched / d * 100.0 * d == watched * 100.0;
    assert watched / d * 100.0 >= 100.0 <==> watched >= d by {
      assert watched / d * 100.0 * d == watched * 100.0;
    }
  }

  /** Watching longer never lowers the percentage. */
  lemma PercentageMonotone(w1: real, w2: real, durationMinutes: int)
    requires 0.0 <= w1 <= w2
    ensures Percentage(w1, durationMinutes) <= Percentage(w2, durationMinutes)
  {
    if durationMinutes > 0 {
      var d := durationMinutes as real;
      assert w1 / d <= w2 / d;
    }
  }

  /** The ids of the rows for (userId, movieId). */
  function PairRows(rows: map<int, WatchRow>, userId: int, movieId: int): (s: set<int>)
    ensures forall k :: k in s <==> k in rows && rows[k].userId == userId && rows[k].movieId == movieId
  {
    set k | k in rows && rows[k].userId == userId && rows[k].movieId == movieId
  }

  /** `findFirst({ where: { user_id, movie_id } })`, taken to be the row
      with the smallest id. */
  function PairRow(rows: map<int, WatchRow>, userId: int, movieId: int): (r: Option<int>)
    ensures r.None? <==> PairRows(rows, userId, movieId) == {}
    ensures r.Some? ==> r.value in PairRows(rows, userId, movieId)
  {
    var s := PairRows(rows, userId, movieId);
    if s == {} then None else Some(Min(s))
  }

  /** At most one row per (user, movie). */
  ghost predicate OneRowPerPair(rows: map<int, WatchRow>) {
    forall a, b ::
      a in rows && b in rows && rows[a].userId == rows[b].userId && rows[a].movieId == rows[b].movieId
      ==> a == b
  }

  /** `saveWatchHistory`: NotFound for a missing user, then for a missing
      movie; BadRequest for a negative duration; otherwise the pair's row is
      updated in place (stamped with `now`) when there is one and created
      otherwise. Either way the row holds the new duration and percentage,
      its id is returned, and no other row changes. */
  function SaveWatchHistory(rows: map<int, WatchRow>, users: map<int, User>, movies: map<int, Movie>,
                            userId: int, movieId: int, watched: real, now: int)
    : (r: Result<(map<int, WatchRow>, int)>)
    ensures r.Ok? <==> userId in users && movieId in movies && watched >= 0.0
    ensures r == Err(NotFound) <==> userId !in users || movieId !in movies
    ensures r == Err(BadRequest) <==> userId in users && movieId in movies && watched < 0.0
    ensures r.Ok? ==>
      var (next, id) := r.value;
      && id in next
      && next.Keys == rows.Keys + {id}
      && (forall k :: k in rows && k != id ==> next[k] == rows[k])
      && next[id].userId == userId && next[id].movieId == movieId
      && next[id].watchedDuration == watched
      && next[id].watchedPercentage == Percentage(watched, movies[movieId].durationMinutes)
      && (PairRow(rows, userId, movieId).Some? ==>
            id == PairRow(rows, userId, movieId).value && next[id].lastWatched == Some(now))
      && (PairRow(rows, userId, movieId).None? ==> id !in rows && next[id].lastWatched.None?)
  {
    if userId !in users then Err(NotFound)
    else if movieId !in movies then Err(NotFound)
    else if watched < 0.0 then Err(BadRequest)
    else
      var p := Percentage(watched, movies[movieId].durationMinutes);
      match PairRow(rows, userId, movieId)
      case Some(k) =>
        Ok((rows[k := rows[k].(watchedDuration := watched, watchedPercentage := p, lastWatched := Some(now))], k))
      case None =>
        var id := FreshId(rows.Keys);
        Ok((rows[id := WatchRow(userId, movieId, watched, p, None)], id))
  }

  /** Saving keeps one row per pair, the saved row is the pair's row
      afterwards, and a later save for the same pair updates that row
      rather than adding one. */
  lemma SaveKeepsOneRowPerPair(rows: map<int, WatchRow>, users: map<int, User>, movies: map<int, Movie>,
                               userId: int, movieId: int, watched: real, now: int, watched2: real, now2: int)
    requires OneRowPerPair(rows)
    requires SaveWatchHistory(rows, users, movies, userId, movieId, watched, now).Ok?
    requires watched2 >= 0.0
    ensures var (next, id) := SaveWatchHistory(rows, users, movies, userId, movieId, watched, now).value;
      && OneRowPerPair(next)
      && PairRows(next, userId, movieId) == {id}
      && SaveWatchHistory(next, users, movies, userId, movieId, watched2, now2).Ok?
      && SaveWatchHistory(next, users, movies, userId, movieId, watched2, now2).value.1 == id
      && SaveWatchHistory(next, users, movies, userId, movieId, watched2, now2).value.0.Keys == next.Keys
  {
    var (next, id) := SaveWatchHistory(rows, users, movies, userId, movieId, watched, now).value;
    assert forall k :: k in next && next[k].userId == userId && next[k].movieId == movieId ==> k == id;
    assert PairRows(next, userId, movieId) == {id};
  }
}
