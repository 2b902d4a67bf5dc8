/** The rows of the tables the subscription core reads and writes, and the
    database state those operations act on. Times are milliseconds since the
    epoch; every table is a map from its integer id to its row. */
module Schema {
  import opened Outcomes
  import opened Json
  import opened Ids

  datatype Role = USER | ADMIN | SUPERADMIN

  /** `subscriptionStatus`; `PENDENG` is the schema's own spelling. */
  datatype SubStatus = PENDENG | ACTIVE | EXPIRED | CANCELED

  datatype MovieType = FREE | PREMIUM

  /** `paymentsStatus`: only `COMPLETED` has behaviour attached to it. */
  datatype PaymentStatus = COMPLETED | NotCompleted(name: string)

  datatype User = User(
    username: string,
    email: string,
    password: string,
    role: Role,
    avatar: Option<string>,
    status: bool)

  datatype Plan = Plan(
    name: string,
    price: real,
    durationDays: int,
    features: Option<Value>,
    isActive: bool)

  datatype Subscription = Subscription(
    userId: int,
    planId: int,
    startDate: int,
    endDate: int,
    status: SubStatus,
    autoRenew: bool,
    createdAt: int)

  datatype Payment = Payment(
    subscriptionId: int,
    amount: real,
    payMethod: string,
    details: Value,
    status: PaymentStatus)

  datatype Movie = Movie(
    title: string,
    slug: string,
    description: string,
    releaseYear: int,
    durationMinutes: int,
    rating: real,
    subscriptionType: MovieType,
    posterUrl: string,
    viewCount: int,
    ownerId: int)

  /** A row of `categories`; `active` is the `Status` column
      (ACTIVE / INACTIVE). */
  datatype Category = Category(
    name: string,
    slug: string,
    description: string,
    active: bool)

  /** A row of `movies_categories`. */
  datatype Link = Link(movieId: int, categoryId: int)

  datatype Db = Db(
    users: map<int, User>,
    plans: map<int, Plan>,
    subs: map<int, Subscription>,
    payments: map<int, Payment>,
    movies: map<int, Movie>)

  /** The catalog tables: movies, categories and the links between them.
      The catalog services work on these alone. */
  datatype Catalog = Catalog(
    movies: map<int, Movie>,
    cats: map<int, Category>,
    links: map<int, Link>)

  /** What an operation leaves behind: the database, including the writes
      made before any failure, and the response or the error thrown. */
  datatype Reply<T> = Reply(db: Db, out: Result<T>)

  /** The authenticated caller a guard attaches to the request. */
  datatype Caller = Caller(id: int, role: Role)

  /** The fixed lifetime a subscription gets on creation, on registration and
      when auto-renewal is switched off: one minute. */
  const LifetimeMs: int := 60 * 1000

  /** One calendar day; `setDate(getDate() + d)` adds `d` of them. */
  const DayMs: int := 86_400_000

  /** A live subscription: one that is waiting for payment or running. */
  predicate IsLive(s: SubStatus) {
    s == ACTIVE || s == PENDENG
  }

  predicate PlanActive(plans: map<int, Plan>, id: int) {
    id in plans && plans[id].isActive
  }

  /** The live subscriptions of user `u`. */
  function LiveOf(subs: map<int, Subscription>, u: int): set<int> {
    set k | k in subs && subs[k].userId == u && IsLive(subs[k].status)
  }

  /** All subscriptions of user `u`, whatever their status. */
  function OwnedBy(subs: map<int, Subscription>, u: int): set<int> {
    set k | k in subs && subs[k].userId == u
  }

  /** The invariant the creation path is built to keep: no user has two live
      subscriptions. */
  ghost predicate OneLivePerUser(subs: map<int, Subscription>) {
    forall a, b :: a in subs && b in subs && a != b && IsLive(subs[a].status) && IsLive(subs[b].status)
      ==> subs[a].userId != subs[b].userId
  }

  /** The creation times of the rows `ks`. */
  function CreationTimes(subs: map<int, Subscription>, ks: set<int>): set<int>
    requires ks <= subs.Keys
  {
    set j | j in ks :: subs[j].createdAt
  }

  lemma CreationTimesNonEmpty(subs: map<int, Subscription>, ks: set<int>)
    requires ks != {} && ks <= subs.Keys
    ensures CreationTimes(subs, ks) != {}
  {
    NoElementMeansEmpty(ks);
    var y :| y in ks;
    assert subs[y].createdAt in CreationTimes(subs, ks);
  }

  /** The row `findFirst({ orderBy: { created_at: 'desc' } })` returns among
      `ks`: the most recently created one, ties going to the larger id. */
  function Newest(subs: map<int, Subscription>, ks: set<int>): (k: int)
    requires ks != {} && ks <= subs.Keys
    ensures k in ks
    ensures forall j :: j in ks ==> subs[j].createdAt <= subs[k].createdAt
    ensures forall j :: j in ks && subs[j].createdAt == subs[k].createdAt ==> j <= k
  {
    CreationTimesNonEmpty(subs, ks);
    var top := Max(CreationTimes(subs, ks));
    var tied := set j | j in ks && subs[j].createdAt == top;
    assert tied != {} by {
      var w :| w in ks && subs[w].createdAt == top;
      assert w in tied;
    }
    var k := Max(tied);
    assert forall j :: j in ks ==> subs[j].createdAt in CreationTimes(subs, ks);
    assert subs[k].createdAt == top;
    assert forall j :: j in ks && subs[j].createdAt == top ==> j in tied;
    k
  }
}
