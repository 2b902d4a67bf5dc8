# Movie subscription backend — Dafny model

This project models the service layer of a movie-streaming backend. It
keeps users, subscription plans, per-user subscriptions, payments, a movie
catalog with categories, and per-user data: profiles, reviews, favourites,
watch history and movie files. The centre of the model is the subscription
state machine:

- A new subscription starts PENDENG with a one-minute lifetime and cancels
  the user's other live (ACTIVE or PENDENG) records.
- A completed payment makes it ACTIVE.
- A sweep renews or expires records that are due. It runs every second and
  before every subscription endpoint.
- The premium gate on `watchMovie` lets a caller in only when their newest
  record is ACTIVE and not past its end.

Around that core sit the CRUD services and the request transforms that
shape their inputs. Among the CRUD services are categories with
reactivation by slug, movies with category linking, plans, users,
profiles, reviews, favourites, watch history and movie files.

The model is functional:

- Every table is a `map<int, Row>`. A new row takes the next id (largest id
  plus one).
- Every service call is a function from the tables to a `Result`. The
  results are `Ok`, or an error matching the HTTP exception the service
  throws: BadRequest, NotFound, Conflict, Forbidden or Unauthorized.
- The subscription endpoints return a `Reply`, which carries the database
  as well. The sweep they run first stays written even when the endpoint
  then fails.
- Time is an explicit `now` in milliseconds.
- Password hashing, the password check and `JSON.parse` are function
  parameters.
- `findFirst` without an ordering picks the smallest matching id.
- "Newest by `created_at`" breaks ties by the larger id.

Modules follow the services:

| module | models |
|---|---|
| `Schema` | tables and enums |
| `Reconcile` | the sweep |
| `Lifecycle` | the subscription endpoints |
| `Payments` | payments |
| `Gate` | the premium gate |
| `Auth` | register and login |
| `Plans` | plans |
| `Slug`, `Categories` | slugs and categories |
| `Normalize`, `Movies`, `Paging`, `MovieLinks` | the movie catalog |
| `Transforms` | the DTO transforms |
| `Profiles`, `Users`, `Reviews`, `Favorites`, `WatchHistory`, `MovieFiles` | the per-user services |
| `Text`, `Ids`, `Outcomes`, `Json` | helpers |

Behaviours of the code the model reproduces:

- **Leaving CANCELED.** An administrator's `delete` sets EXPIRED from any
  status, CANCELED included. A COMPLETED payment sets ACTIVE from any
  status. So records do leave CANCELED
  (`Payments.CompletingRevivesCanceled`).
- **The gate does not sweep.** It reads the newest record as stored and
  expires it only when it is ACTIVE and past its end.
- **`update` end date.** An administrator's `update` computes the new end
  date from the one-minute lifetime, not from the plan's duration.
- **Empty avatar.** `getAvatarUrl` returns null for an empty file name as
  well as for a missing one.

## Model

| member | source | states |
|---|---|---|
| Reconcile.SweepOne | src/modules/user_subscriptions/user_subscriptions.service.ts:44-63 | One swept record keeps owner, plan, auto-renew flag and creation time. A record that is not due, or is PENDENG or CANCELED, is returned unchanged. Any change leaves it ACTIVE or EXPIRED. |
| Reconcile.Sweep | src/modules/user_subscriptions/user_subscriptions.service.ts:31-65 | The sweep keeps the set of records. It leaves records that are not due, and PENDENG/CANCELED ones, alone. A due ACTIVE/EXPIRED record with auto-renew on an active plan restarts at `now` for the plan's duration in days. Any other due record becomes EXPIRED with its dates kept. |
| Reconcile.SweepLeavesNoOverdueActive | src/modules/user_subscriptions/user_subscriptions.service.ts:44-63 | If every plan lasts at least a day, no ACTIVE record ends at or before `now` after a sweep. |
| Reconcile.SweepIdempotent | src/modules/user_subscriptions/user_subscriptions.service.ts:31-65 | A second sweep at the same instant changes nothing. |
| Lifecycle.CancelLive | src/modules/user_subscriptions/user_subscriptions.service.ts:108-114 | Afterwards the user has no ACTIVE/PENDENG record. Exactly their live records become CANCELED, and every other record is unchanged. |
| Lifecycle.Create | src/modules/user_subscriptions/user_subscriptions.service.ts:67-141 | Sweep writes persist. Iff conditions: BadRequest when an admin omits `user_id`; NotFound for a missing or inactive user or plan; Conflict for a live record on the same plan. On success there is one new PENDENG record ending 60 000 ms after `now`, with auto-renew defaulting to false; the user's other live records are CANCELED, so the new record is their only live one. It succeeds iff the user is known, the user and plan are usable, and the swept table holds no live record of theirs on that plan. |
| Lifecycle.CreateKeepsOneLive | src/modules/user_subscriptions/user_subscriptions.service.ts:108-138 | `create` keeps "at most one ACTIVE/PENDENG record per user". |
| Lifecycle.SweepKeepsOneLive | src/modules/user_subscriptions/user_subscriptions.service.ts:34-63 | With no EXPIRED record to revive, the sweep keeps "at most one live record per user". |
| Lifecycle.SweepCanReviveSecondLive | src/modules/user_subscriptions/user_subscriptions.service.ts:36-57 | A concrete state in which reviving an EXPIRED auto-renewing record gives a user two live records. |
| Lifecycle.MyTarget | src/modules/user_subscriptions/user_subscriptions.service.ts:438-459 | The chosen record is the newest live record, or else the newest record of any status. There is none iff the user owns no record. |
| Lifecycle.MyUpdate | src/modules/user_subscriptions/user_subscriptions.service.ts:426-487 | BadRequest iff `auto_renew` is absent; NotFound iff the caller owns no record. Otherwise only the chosen record changes, and only its auto-renew flag and, when the flag is turned off, an end date of `now` + 60 s. It succeeds iff `auto_renew` is sent and the caller owns a record after the sweep. |
| Lifecycle.MyUpdateKeepsLiveSets | src/modules/user_subscriptions/user_subscriptions.service.ts:426-487 | Every user has the same live set as after the sweep, so at most one live record per user is kept. |
| Lifecycle.Update | src/modules/user_subscriptions/user_subscriptions.service.ts:489-569 | NotFound iff the record, a new owner or an active new plan is missing; BadRequest iff the patch is empty. Every sent field is written. The end date is, in order: the sent end; `now` + 60 s when auto-renew is turned off; the (new) start + 60 s when the plan or start changes; otherwise unchanged. It succeeds iff no target is missing and the patch is not empty. |
| Lifecycle.UpdateKeepsOneLive | src/modules/user_subscriptions/user_subscriptions.service.ts:489-569 | An update that sends neither a status nor an owner keeps at most one live record per user. |
| Lifecycle.UpdateCanBreakOneLive | src/modules/user_subscriptions/user_subscriptions.service.ts:489-569 | Counterexample: making a CANCELED record ACTIVE for a user who already has an ACTIVE one leaves that user two live records. |
| Lifecycle.MyDelete | src/modules/user_subscriptions/user_subscriptions.service.ts:571-599 | NotFound iff the caller has no live record. Otherwise the newest live record becomes CANCELED with auto-renew off and end `now`, and the caller's live set loses exactly it. |
| Lifecycle.MyDeleteSticks | src/modules/user_subscriptions/user_subscriptions.service.ts:589-596 | A record cancelled by `myDelete` is still CANCELED after any later sweep. |
| Lifecycle.Delete | src/modules/user_subscriptions/user_subscriptions.service.ts:601-617 | NotFound iff the id is missing. Otherwise the record, of any status, becomes EXPIRED and leaves its user's live set. |
| Lifecycle.DeleteKeepsOneLive | src/modules/user_subscriptions/user_subscriptions.service.ts:601-617 | A delete keeps at most one live record per user. |
| Lifecycle.DeleteDoesNotStick | src/modules/user_subscriptions/user_subscriptions.service.ts:611-614 | A concrete auto-renewing record expired by an admin comes back ACTIVE at the next sweep after its end. |
| Payments.Activate | src/modules/payments/payments.service.ts:35-40 | Only the one subscription changes, and only its status, which becomes ACTIVE. |
| Payments.ActivateIdempotent | src/modules/payments/payments.service.ts:89-94 | Activating an ACTIVE subscription changes nothing. |
| Payments.CreatePayment | src/modules/payments/payments.service.ts:14-43 | NotFound iff the subscription is missing; Forbidden iff a USER pays for another user's subscription; nothing is written on failure. Otherwise one payment is added (details default `{}`), and the subscription becomes ACTIVE exactly when the stored status is COMPLETED. It succeeds iff the subscription exists and the caller is not a USER paying for someone else. |
| Payments.UpdatePayment | src/modules/payments/payments.service.ts:77-97 | NotFound iff the payment is missing. Otherwise the status is written, and the linked subscription becomes ACTIVE exactly when the new status is COMPLETED. It succeeds iff the payment exists. |
| Payments.ActivateKeepsOneLiveIff | src/modules/payments/payments.service.ts:35-40 | Activating a record keeps one live record per user iff that user had no live record other than this one. |
| Payments.CreatePaymentOneLive | src/modules/payments/payments.service.ts:14-43 | After a successful payment, one live record per user is kept iff the payment is not COMPLETED or the user had no other live record. |
| Payments.CompletingCanBreakOneLive | src/modules/payments/payments.service.ts:89-94 | Counterexample: completing a payment on a CANCELED record of a user who has an ACTIVE one leaves that user two live records. |
| Payments.CompletingRevivesCanceled | src/modules/payments/payments.service.ts:89-94 | Completing a payment of a CANCELED subscription makes it ACTIVE. |
| Payments.CompletingTwiceIsOnce | src/modules/payments/payments.service.ts:84-94 | Completing the same payment twice leaves the database as completing it once. |
| Gate.Latest | src/modules/movies/movies.service.ts:475-485 | The chosen record is the user's newest of any status. There is none iff they own no record. |
| Gate.WatchMovie | src/modules/movies/movies.service.ts:461-530 | NotFound iff the movie is missing. Unauthorized iff it is PREMIUM and the caller id is absent or 0. Forbidden iff PREMIUM and the newest record is missing, not ACTIVE, or ended before `now`. Access bumps the view count by exactly 1 and writes nothing else. The only write on refusal is EXPIRED on a newest record that is ACTIVE but past its end. Access is granted iff the movie exists and is FREE, or the caller is signed in and has an ACTIVE newest record that has not ended. |
| Gate.GateAllowsAtEndInstant | src/modules/movies/movies.service.ts:498-501 | A record ending exactly at `now` still opens premium movies, although the sweep already counts it as due. |
| Gate.GateAfterSweepNeverWrites | src/modules/movies/movies.service.ts:502-510 | On a freshly swept state (plans at least a day long) the gate never writes a subscription. |
| Gate.SweptGateIsStatusOnly | src/modules/movies/movies.service.ts:491-513 | On a freshly swept state the gate admits a signed-in user iff their newest record is ACTIVE. |
| Gate.GateExpiresOnlyOverdue | src/modules/movies/movies.service.ts:502-509 | Any record the gate expires is one the sweep would also select. |
| Schema.Newest | src/modules/user_subscriptions/user_subscriptions.service.ts:574-583 | The chosen row has the greatest creation time among the candidates; ties go to the larger id. |
| Auth.Register | src/modules/auth/auth.service.ts:21-82 | BadRequest iff the username or e-mail is taken; NotFound iff no active "Free" plan exists; nothing is written on failure. Otherwise one USER-role active user is added, plus one ACTIVE, non-renewing subscription on the Free plan lasting 60 000 ms. It succeeds iff neither is taken and a Free plan exists. |
| Auth.RegisterGivesOneLiveSubscription | src/modules/auth/auth.service.ts:43-56 | The new user owns exactly one subscription, and it is live. The foreign key and "one live record per user" are kept. |
| Auth.Lookup | src/modules/auth/auth.service.ts:85-93 | The user found has the identifier as e-mail or username. There is none iff no user has it. |
| Auth.Login | src/modules/auth/auth.service.ts:84-121 | Success iff the identifier matches a user and the password check passes. Every failure is Unauthorized. |
| Auth.LoginIgnoresRoleAndStatus | src/modules/auth/auth.service.ts:123-159 | Changing a user's role or status never changes a login decision, so `loginAdmin` decides as `login` does. |
| Plans.CreatePlan | src/modules/subscription_plan/subscription_plan.service.ts:142-174 | Conflict iff the name is used by any plan. Otherwise one new plan, active unless `is_active` is false. |
| Plans.UpdatePlan | src/modules/subscription_plan/subscription_plan.service.ts:176-223 | NotFound iff missing; BadRequest iff neither `is_active` nor a usable `features` is sent. Only those two fields change. A blank-string `features` is ignored; any other value is stored as sent. It succeeds iff the plan exists and `is_active` or a usable `features` is sent. |
| Plans.DeletePlan | src/modules/subscription_plan/subscription_plan.service.ts:225-247 | NotFound iff missing. Otherwise the plan only becomes inactive. |
| Plans.CreatePlanKeepsNamesUnique | src/modules/subscription_plan/subscription_plan.service.ts:142-174 | Creating a plan keeps plan names unique, and creating it again is a Conflict. |
| Plans.UpdatePlanListings | src/modules/subscription_plan/subscription_plan.service.ts:176-223 | Unique plan names stay unique. A plan moves between the active and inactive listings only when `is_active` is sent, and then to the listing it names. |
| Plans.DeletePlanMovesToInactive | src/modules/subscription_plan/subscription_plan.service.ts:225-247 | The plan leaves the active listing and joins the inactive one, every other plan stays, and deleting again changes nothing. |
| Plans.ListActive | src/modules/subscription_plan/subscription_plan.service.ts:96-117 | Exactly the active plans. NotFound iff there are none. |
| Plans.ListInactive | src/modules/subscription_plan/subscription_plan.service.ts:119-140 | Exactly the inactive plans. NotFound iff there are none. |
| Plans.ListingsPartition | src/modules/subscription_plan/subscription_plan.service.ts:96-140 | The two listings split the plans, and one of them succeeds on a non-empty table. |
| Plans.GetMyPlan | src/modules/subscription_plan/subscription_plan.service.ts:39-71 | An ACTIVE subscription of the caller. NotFound iff there is none. |
| Plans.GetMyPlanAfterSweepIsCurrent | src/modules/subscription_plan/subscription_plan.service.ts:40-44 | Read right after a sweep, the reported record has not ended. |
| Slug.KeepSlugChars | src/modules/movies/movies.service.ts:22 | Only characters in `[a-z0-9\s-]` are left, and an input made only of them is unchanged. |
| Slug.KeepSlugCharsCounts | src/modules/movies/movies.service.ts:22 | Every character in `[a-z0-9\s-]` is kept as many times as it occurs in the input. Every other character is dropped. |
| Slug.SpaceRunsToHyphen | src/modules/movies/movies.service.ts:23 | No white space is left. Every other character comes from the input. |
| Slug.CollapseHyphens | src/modules/movies/movies.service.ts:24 | No two adjacent hyphens; only input characters; starts with a hyphen iff the input does. |
| Slug.CollapseHyphensFixes | src/modules/movies/movies.service.ts:24 | A string without `--` is left unchanged. |
| Slug.KeepSlugCharsAppend | src/modules/movies/movies.service.ts:22 | Filtering `a + b` gives the filtered `a` followed by the filtered `b`, so kept characters stay in input order. |
| Slug.SpaceRunsToHyphenSquashes | src/modules/movies/movies.service.ts:23 | Matches the reference left-to-right reading: each maximal run of white space becomes exactly one hyphen, and every other character is kept in order. |
| Slug.CollapseHyphensSquashes | src/modules/movies/movies.service.ts:24 | Matches the reference reading: each maximal run of hyphens becomes exactly one hyphen, and every other character is kept in order. |
| Slug.GenerateSlug | src/modules/movies/movies.service.ts:19-26 | The slug has only `[a-z0-9-]` and no two adjacent hyphens. |
| Slug.SlugIsFixpoint | src/modules/categories/categories.service.ts:16-23 | A string of slug shape is its own slug. |
| Slug.GenerateSlugIdempotent | src/modules/movies/movies.service.ts:19-26 | Generating a slug from a slug changes nothing. |
| Categories.CategorySlug | src/modules/categories/categories.service.ts:16-31 | BadRequest iff the generated slug is empty. Otherwise a non-empty slug. |
| Categories.BySlug | src/modules/categories/categories.service.ts:38-41 | A category holding the slug. None iff no category holds it. |
| Categories.CreateCategory | src/modules/categories/categories.service.ts:33-91 | The slug comes from `slug`, else the trimmed name; BadRequest iff it is empty. Conflict iff an ACTIVE row holds the slug, or no row holds it and an ACTIVE row has the name. An INACTIVE holder is reused under its own id. Otherwise a new ACTIVE row. It succeeds iff the slug is non-empty and neither Conflict condition holds. |
| Categories.CreateCategoryKeepsSlugsUnique | src/modules/categories/categories.service.ts:38-84 | A successful create keeps category slugs unique. |
| Categories.UpdateCategory | src/modules/categories/categories.service.ts:128-182 | NotFound iff not ACTIVE. The slug comes from `slug`, else `name`, else the current slug; BadRequest iff it is empty. Conflict iff another row holds the slug or another ACTIVE row has the name. Otherwise only that row changes. It succeeds iff the row is ACTIVE, the slug is non-empty, no other row holds it, and no other ACTIVE row has the name. |
| Categories.UpdateCategoryKeepsSlugsUnique | src/modules/categories/categories.service.ts:150-166 | A successful update keeps category slugs unique. |
| Categories.DeleteCategory | src/modules/categories/categories.service.ts:184-206 | NotFound iff not ACTIVE. Otherwise the row only becomes INACTIVE. |
| Categories.DeleteThenCreateReactivates | src/modules/categories/categories.service.ts:47-63 | Deleting a category, then creating one with its slug, revives the same row as ACTIVE. |
| Normalize.KeyOf | src/modules/movies/movies.service.ts:50-60 | A non-empty key is the slug of a non-blank trimmed name. An empty key means the loop skips the item. |
| Normalize.NormalizeCategories | src/modules/movies/movies.service.ts:46-68 | The loop's result equals the reference definition: the first (slug, trimmed name) of every non-empty slug, in first-occurrence order. |
| Normalize.DedupSound | src/modules/movies/movies.service.ts:62-64 | Every kept entry is the entry of the first item with its key. |
| Normalize.DedupComplete | src/modules/movies/movies.service.ts:49-65 | Every non-empty key is kept. |
| Normalize.DedupDistinct | src/modules/movies/movies.service.ts:62-64 | Kept keys are non-empty and pairwise distinct. |
| Normalize.NormalizedDistinct | src/modules/movies/movies.service.ts:46-68 | Slugs of the result are distinct and non-empty. |
| Normalize.NormalizedSound | src/modules/movies/movies.service.ts:46-68 | Each entry is the slug and trimmed name of the first item producing that slug. The slug is slug-shaped; the name is non-blank and trimmed. |
| Normalize.NormalizedComplete | src/modules/movies/movies.service.ts:49-65 | Every item the loop does not skip has its slug in the result. |
| Movies.ToPosterUrl | src/modules/movies/movies.service.ts:28-34 | Always an absolute URL. Absolute input is kept; anything else goes under the poster route. |
| Movies.ToPosterUrlIdempotent | src/modules/movies/movies.service.ts:28-34 | Mapping twice equals mapping once. |
| Movies.Reactivate | src/modules/movies/movies.service.ts:92-97 | Keeps the rows. Exactly the rows holding the slugs become ACTIVE. |
| Movies.AddMissing | src/modules/movies/movies.service.ts:107-112 | Existing rows are kept. |
| Movies.AddMissingSound | src/modules/movies/movies.service.ts:99-105 | Each added row is the new ACTIVE category `(name, slug, "<name> category")` of an entry whose slug was not held. |
| Movies.AddMissingComplete | src/modules/movies/movies.service.ts:99-112 | Every entry whose slug was not held gets a row. |
| Movies.Resolve | src/modules/movies/movies.service.ts:80-119 | Old rows stay, with ACTIVE set on requested slugs. The ids returned are exactly the rows holding a requested slug. |
| Movies.ResolveAddsOnlyMissing | src/modules/movies/movies.service.ts:99-112 | Added rows are new categories for slugs nobody held. |
| Movies.ResolveReturnsActive | src/modules/movies/movies.service.ts:92-119 | Every returned id is an ACTIVE category afterwards. |
| Movies.ResolveCoversSlugs | src/modules/movies/movies.service.ts:80-119 | Every requested slug is held afterwards by a returned category. |
| Movies.GetOrCreateCategoryIds | src/modules/movies/movies.service.ts:70-120 | NotFound iff normalisation leaves nothing. Otherwise the result of resolving the normalised list. |
| Movies.ResolveKeepsSlugsUnique | src/modules/movies/movies.service.ts:99-112 | Resolving keeps category slugs unique. |
| Movies.AddMissingKeepsUnique | src/modules/movies/movies.service.ts:107-112 | Adding the missing entries keeps category slugs unique. |
| Movies.AddLinks | src/modules/movies/movies.service.ts:162-169 | Existing links are kept. New links join the movie to exactly the given categories, once each. |
| Movies.Unlink | src/modules/movies/movies.service.ts:415-417 | Removes exactly the movie's links. |
| Movies.LinkCategories | src/modules/movies/movies.service.ts:159-170 | With no list the tables are unchanged. With a list, NotFound iff it normalises to nothing; otherwise resolve, then link the movie to the result. |
| Movies.CreateMovie | src/modules/movies/movies.service.ts:122-180 | BadRequest iff the generated slug is empty or no poster is sent; Conflict iff the slug is taken; NotFound iff a sent list normalises to nothing. Success adds a fresh movie with trimmed title and description, the poster file and zero views, then links its categories. It succeeds iff the slug is non-empty and free, a poster is sent, and a sent list does not normalise to nothing. |
| Movies.AddLinksKeepsPairsUnique | src/modules/movies/movies.service.ts:163-168 | Linking a movie with no links never duplicates a pair. |
| Movies.ResolveAndLinkKeepsValid | src/modules/movies/movies.service.ts:160-169 | Resolving and linking keep unique slugs, unique pairs and link targets. |
| Movies.LinkCategoriesKeepsValid | src/modules/movies/movies.service.ts:159-170 | The category step keeps every catalog constraint. |
| Movies.CreateMovieKeepsValid | src/modules/movies/movies.service.ts:142-173 | A successful create keeps every catalog constraint. |
| Movies.Patched | src/modules/movies/movies.service.ts:357-402 | View count and owner are kept. With nothing sent, the movie is unchanged. |
| Movies.UpdateMovie | src/modules/movies/movies.service.ts:344-439 | NotFound iff missing; BadRequest iff a sent slug is empty or nothing is sent; Conflict iff another movie holds the slug. Otherwise only this movie changes, and a sent list replaces its links. It succeeds iff the movie exists, a sent slug is non-empty and free, something is sent, and a sent list does not normalise to nothing. |
| Movies.UpdateMovieKeepsValid | src/modules/movies/movies.service.ts:408-432 | A successful update keeps every catalog constraint. |
| Movies.UpdateMovieReplacesLinks | src/modules/movies/movies.service.ts:414-429 | With a list, the movie ends up linked to exactly the resolved categories. Other movies' links are unchanged. |
| Movies.DeleteMovie | src/modules/movies/movies.service.ts:441-459 | NotFound iff missing. Otherwise the movie and its links go; categories stay. |
| Movies.DeleteMovieKeepsValid | src/modules/movies/movies.service.ts:450-452 | A delete keeps every catalog constraint. |
| Paging.CeilDiv | src/modules/movies/movies.service.ts:286 | `Math.ceil(total / limit)`: the least page count whose pages hold the total. |
| Paging.Paginate | src/modules/movies/movies.service.ts:183-186 | Without page and limit the result is one page with limit = total. Otherwise page/limit default to 1/20, skip = (page-1)*limit, take = limit, and pages = ceil(total/limit). |
| Paging.Window | src/modules/movies/movies.service.ts:250-254 | The rows skip .. skip+take of the list (all from skip without a take). |
| Paging.PagesPartitionList | src/modules/movies/movies.service.ts:245-289 | Reading the reported pages one after another returns the whole list in order. |
| Paging.RowPageExists | src/modules/movies/movies.service.ts:283-287 | Row i's page, i/limit+1, is among the reported pages. |
| Paging.RowOnOnePage | src/modules/movies/movies.service.ts:186 | Row i is on page p iff p = i/limit+1. |
| MovieLinks.CreateLink | src/modules/movies_categories/movies_categories.service.ts:71-112 | NotFound iff the movie is missing or the category is missing or INACTIVE; Conflict iff the pair is linked. Otherwise one fresh link. It succeeds iff the movie exists, the category is ACTIVE and the pair is unlinked. |
| MovieLinks.CreateLinkKeepsValid | src/modules/movies_categories/movies_categories.service.ts:88-97 | A successful create keeps the catalog constraints. |
| MovieLinks.UpdateLink | src/modules/movies_categories/movies_categories.service.ts:114-180 | Iff conditions: NotFound for a missing link, movie or ACTIVE category; BadRequest for no field; Conflict when the merged pair belongs to another link. An omitted field keeps its value. It succeeds iff the link exists, a field is sent, each sent target exists (the category ACTIVE), and the merged pair is free. |
| MovieLinks.UpdateLinkKeepsValid | src/modules/movies_categories/movies_categories.service.ts:153-164 | A successful update keeps pairs unique and links resolving. |
| MovieLinks.DeleteLink | src/modules/movies_categories/movies_categories.service.ts:182-202 | NotFound iff missing. Otherwise exactly that link goes. |
| MovieLinks.CreateThenDeleteLink | src/modules/movies_categories/movies_categories.service.ts:71-202 | Creating a link and deleting it restores the catalog. |
| Transforms.ToOptionalTrimmedString | src/modules/users/dto/update.user.dto.ts:5-12 | Non-strings pass through. Absent iff the string is blank; otherwise its trim. A text result is non-empty and trimmed. |
| Transforms.ToOptionalTrimmedStringIdempotent | src/modules/movies/dto/update.dto.ts:6-13 | Applying the transform twice equals applying it once. |
| Transforms.NonBlankText | src/modules/profile/profile.service.ts:194-196 | A value is selected iff it is a non-blank string, and the value is its trim. |
| Transforms.NonBlankTextIsTransform | src/modules/users/users.service.ts:156-158 | The services' own rule selects exactly what the DTO transform leaves, and the value is non-empty and trimmed. |
| Transforms.ToOptionalNumber | src/modules/movies/dto/update.dto.ts:15-31 | Absent/null/blank become absent. A numeric string becomes its number. Anything else passes through. |
| Transforms.ToOptionalNumberIdempotent | src/modules/movies/dto/update.dto.ts:15-31 | Applying the transform twice equals applying it once. |
| Transforms.SplitItems | src/modules/movies/dto/create.dto.ts:37 | One trimmed string per comma-separated piece. |
| Transforms.ParseCategories | src/modules/movies/dto/create.dto.ts:14-38 | Arrays and non-strings pass through; a blank string gives []; a `[`-string gives the parsed array, or [] for a non-array, or comma pieces on parse error; other strings give comma pieces. A string always gives an array. |
| Transforms.ParseCategoriesCommaList | src/modules/movies/dto/create.dto.ts:33-37 | There is one item per comma plus one, and rejoining the pieces gives the trimmed input. |
| Transforms.UpdateRatingNarrower | src/modules/movies/dto/update.dto.ts:60-65 | Every update rating ([0,5], one decimal) is a valid create rating ([0,10]); 7.5 is valid only on create. |
| Transforms.NormalizeType | src/modules/movies/dto/query.dto.ts:41-43 | A string becomes the upper case of its trimmed value. Other values pass through. |
| Transforms.NormalizeTypeIdempotent | src/modules/movies/dto/query.dto.ts:40-46 | The type transform is idempotent. |
| Transforms.NormalizeOrder | src/modules/movies/dto/query.dto.ts:49-51 | A string becomes the lower case of its trimmed value. Other values pass through. |
| Transforms.NormalizeOrderIdempotent | src/modules/movies/dto/query.dto.ts:48-55 | The order transform is idempotent. |
| Transforms.PagingOf | src/modules/movies/dto/query.dto.ts:14-28 | A valid page and limit become integers satisfying the pagination precondition. |
| Transforms.UsernameAcceptedIsTrimmed | src/modules/users/dto/update.user.dto.ts:14-20 | A username is accepted iff it is absent, null, blank, or at least 3 characters after trimming. An accepted string is stored trimmed. A blank one is dropped. |
| Profiles.GetAvatarUrl | src/modules/profile/profile.service.ts:9-11 | None iff the avatar is absent or empty. Otherwise a URL under the files route. |
| Profiles.AvatarUrlNamesFile | src/modules/profile/profile.service.ts:9-11 | Stripping the route from the URL gives back the file name. |
| Profiles.ProfileOf | src/modules/profile/profile.service.ts:121-125 | A profile of the user. None iff they have none. |
| Profiles.NullableChange | src/modules/profile/profile.service.ts:133-147 | Absent or non-string leaves the column; null clears it; a string is trimmed, and a blank one clears it. |
| Profiles.UpdateProfile | src/modules/profile/profile.service.ts:120-182 | NotFound iff the user has no profile; BadRequest iff no field selects a change. Otherwise only that profile changes. A written name, phone or country is non-blank and trimmed. `updateMyProfile` (lines 185-247) is the same. It succeeds iff the profile exists and some field selects a change. |
| Profiles.CreateProfile | src/modules/profile/profile.service.ts:288-324 | Conflict iff the user has a profile. Otherwise one fresh row with phone/country null when omitted. `createMyProfile` (lines 327-363) is the same. |
| Profiles.DeleteProfile | src/modules/profile/profile.service.ts:250-285 | NotFound iff the user has no profile. Otherwise exactly that profile goes. |
| Profiles.ProfileOperationsKeepOnePerUser | src/modules/profile/profile.service.ts:289-291 | Create, update and delete keep one profile per user. After create the user's profile is the new row; after delete there is none. |
| Users.AddUser | src/modules/users/users.service.ts:89-106 | Conflict iff the username or e-mail is taken by any user. Otherwise one fresh active user. |
| Users.CreateUser | src/modules/users/users.service.ts:88-115 | Conflict iff taken. The new user has role USER and is active. |
| Users.CreateAdmin | src/modules/users/users.service.ts:117-145 | Conflict iff taken. The new user has role ADMIN and is active. |
| Users.AddUserKeepsIdentityUnique | src/modules/users/users.service.ts:89-97 | Creating keeps usernames and e-mails unique. |
| Users.UpdateUser | src/modules/users/users.service.ts:147-196 | NotFound iff missing; BadRequest iff nothing is sent. Username and e-mail change only to a sent non-blank trimmed value. Password changes only to the hash of one. The avatar changes only for a sent file. Role, status and other users are unchanged. `updateUser` (lines 198-247) is the same. It succeeds iff the user exists and a non-blank username, e-mail or password, or a file, is sent. |
| Users.UpdateUserKeepsListings | src/modules/users/users.service.ts:147-196 | An update moves no user between the active and inactive listings. |
| Users.UpdateUserIdempotent | src/modules/users/users.service.ts:147-196 | Sending the same update twice gives the same table as sending it once. |
| Users.UpdateUserCanDuplicateUsername | src/modules/users/users.service.ts:156-170 | From any table with unique usernames, renaming one user to another user's (trimmed, non-empty) username succeeds and leaves two users with that username. |
| Users.DeleteUser | src/modules/users/users.service.ts:249-266 | NotFound iff missing. Otherwise only the status becomes false. |
| Users.DeleteUserMovesToInactive | src/modules/users/users.service.ts:250-258 | A deleted user moves from the active to the inactive listing, nobody else moves, and a second delete changes nothing. |
| Users.GetInactiveUsers | src/modules/users/users.service.ts:71-85 | Exactly the inactive users. NotFound iff there are none. |
| Users.GetAllUsersAsWritten | src/modules/users/users.service.ts:19-33 | Exactly the active users, and it never fails. |
| Users.GetAllUsers | src/modules/users/users.service.ts:20-26 | Exactly the active users. NotFound iff there are none (the guard's intent). |
| Users.GetAllUsersGuardIsDead | src/modules/users/users.service.ts:24-26 | With no active user the code succeeds with an empty list where the intended listing gives NotFound. |
| Users.ListingsPartitionUsers | src/modules/users/users.service.ts:20-22 | The active and inactive listings split the users. |
| Reviews.CreateReview | src/modules/reviews/reviews.service.ts:9-56 | NotFound iff the movie or user is missing; BadRequest iff the pair already has a review or the rating is outside [1,5]. Otherwise one fresh review. It succeeds iff both exist, the pair has no review, and the rating is valid. |
| Reviews.CreateReviewKeepsValid | src/modules/reviews/reviews.service.ts:27-40 | A create keeps one review per pair and ratings in range, and refuses a second review for the pair. |
| Reviews.DeleteReview | src/modules/reviews/reviews.service.ts:80-117 | NotFound iff the review or caller is missing; Forbidden iff a USER deletes another's review. Otherwise exactly that review goes. |
| Reviews.DeleteReviewPermission | src/modules/reviews/reviews.service.ts:100-107 | A delete succeeds iff the caller wrote the review or is not a USER. |
| Reviews.CreateThenDeleteReview | src/modules/reviews/reviews.service.ts:42-111 | A review created and deleted by its author leaves the table as before. |
| Reviews.DeleteReviewKeepsValid | src/modules/reviews/reviews.service.ts:109-111 | A delete keeps the table's constraints. |
| Favorites.CreateFavorite | src/modules/favorites/favorites.service.ts:9-30 | BadRequest iff the user already has the movie. Otherwise one fresh row. |
| Favorites.GetAllFavorites | src/modules/favorites/favorites.service.ts:32-45 | Exactly the user's favourites. NotFound iff there are none. |
| Favorites.GetOneFavorite | src/modules/favorites/favorites.service.ts:48-60 | The row. NotFound iff missing. |
| Favorites.DeleteFavorite | src/modules/favorites/favorites.service.ts:63-79 | NotFound iff missing. Otherwise exactly that row goes. |
| Favorites.FavoriteRoundTrip | src/modules/favorites/favorites.service.ts:9-79 | A created favourite keeps one row per pair, blocks a second create, is listed and readable, and deleting it restores the table. |
| WatchHistory.Percentage | src/modules/watch_histroy/watch_histroy.service.ts:39-44 | Between 0 and 100. 0 when the duration is not positive. |
| WatchHistory.PercentageFull | src/modules/watch_histroy/watch_histroy.service.ts:39-44 | 100 iff the whole duration is watched. Below that it is watched*100/duration. |
| WatchHistory.PercentageMonotone | src/modules/watch_histroy/watch_histroy.service.ts:39-44 | Watching longer never lowers the percentage. |
| WatchHistory.PairRow | src/modules/watch_histroy/watch_histroy.service.ts:46-52 | A row of the pair. None iff the pair has no row. |
| WatchHistory.SaveWatchHistory | src/modules/watch_histroy/watch_histroy.service.ts:12-77 | NotFound iff the user or movie is missing; BadRequest iff the duration is negative. Otherwise the pair's row is updated in place (last watched = `now`) or created. It holds the new duration and percentage, and no other row changes. It succeeds iff both exist and the duration is not negative. |
| WatchHistory.SaveKeepsOneRowPerPair | src/modules/watch_histroy/watch_histroy.service.ts:54-70 | A save keeps one row per pair, and a later save updates that same row. |
| MovieFiles.VideoUrl | src/modules/movie_files/movie_files.service.ts:17 | The video route followed by the file name, from which the name can be read back. |
| MovieFiles.VideoUrlInjective | src/modules/movie_files/movie_files.service.ts:17 | Different files get different URLs. |
| MovieFiles.CreateMovieFile | src/modules/movie_files/movie_files.service.ts:10-34 | NotFound iff the movie is missing. Otherwise one fresh row whose URL is the video URL of the file. |
| MovieFiles.UpdateMovieFile | src/modules/movie_files/movie_files.service.ts:66-103 | NotFound iff missing; BadRequest iff nothing is sent. Only sent fields change, and the URL changes only for an uploaded file. It succeeds iff the file exists and a quality, a language or an upload is sent. |
| MovieFiles.UpdateMovieFileIdempotent | src/modules/movie_files/movie_files.service.ts:74-96 | Sending the same update twice equals sending it once. |
| MovieFiles.DeleteMovieFile | src/modules/movie_files/movie_files.service.ts:105-118 | NotFound iff missing. Otherwise exactly that row goes. |
| MovieFiles.CreateThenDeleteMovieFile | src/modules/movie_files/movie_files.service.ts:10-118 | Deleting a just-created file restores the table. |

## Left out

- **HTTP and infrastructure.** Controllers, guards, JWT signing, e-mail,
  multer file storage and the HTTP response shapes are not modelled. The
  services receive the caller, the file name and the clock as parameters.
- **The scheduler.** The one-second cron schedule is not modelled.
  `Reconcile.Sweep` is the pass the scheduler runs, applied at a given
  `now`.
- **Concurrency.** Concurrent requests are not modelled. The database
  transactions in `createMovie`, `updateMovie` and `deleteMovie` are
  treated as all-or-nothing.
- **Read-only endpoints.** These are left out because they only read:
  `findAll`/`findOne`/`findMy*` of subscriptions, `getOneMovies`,
  `getSingleUser`, `getMe`, and the list and get-one endpoints of
  categories, links, reviews, movie files, plans and payments.
  `getAll` of movies is modelled only for its pagination (`Paging`). Its
  search, category and type filters and its ordering are left out.
- **Money and ratings.** Decimal conversion in the movie response and the
  `Number.isFinite` guard are left out. Money and ratings are `real`.
- **File quality.** The file-quality enum is a plain string.
- **`Reconcile.Sweep`.** A day is 86 400 000 ms. Daylight-saving shifts of
  `setDate` are not modelled.
- **`Schema.Newest`.** Ties in `created_at` go to the larger id. The
  database leaves such ties unspecified.
- **`Movies.DeleteMovie`.** The movie's category links are assumed to be
  deleted with it, as the schema's cascade does. Reviews, favourites,
  watch history and files are not cascaded in the model.
- **`Movies.AddMissing`.** New categories created while resolving a movie's
  list take the column default, ACTIVE.
- **`Users.UpdateUser`.** Uniqueness of username and e-mail is not claimed.
  The service does not check it, and the database's unique index, which
  would reject the write, is not modelled.
- **`WatchHistory.SaveWatchHistory`.** A new row's `last_watched` is left
  to the column default, written as absent.
- **`Payments.UpdatePayment`.** Only the status field of the update body is
  modelled. The other fields the service writes from the body are left
  out.
- **`Auth.Login`.** Issuing the JWT is left out. The model states only
  which user is authenticated.
- **`Ids.FreshId`.** A new row takes the largest id in use plus one. After
  the row with the largest id is deleted, that id can be given out again.
  The database's sequence never reuses an id. No property of the model
  depends on ids never being reused.
- **`Text.Upper`, `Text.Lower`.** Case mapping covers ASCII letters and a
  few characters that map to or from ASCII letters. Full Unicode case
  mapping is not modelled, so strings such as "ß", whose upper case is
  longer, are not treated as JavaScript treats them.
- **Foreign keys.** Constraints beyond those stated are left to the
  database and not modelled.

## Findings

| source | as written | input that shows it | evidently intended | confidence | as-written member | corrected member |
|---|---|---|---|---|---|---|
| src/modules/users/users.service.ts:24-26 | `getAllUsers` guards with `if (!existUsers)`, but `findMany` returns an array, which is always truthy, so the NotFound branch is dead | a database with no active user: the call succeeds with `[]` | NotFound when there is no active user, as `getInActiveUser` does with its length check | high, not executed | Users.GetAllUsersAsWritten | Users.GetAllUsers |
