# BaziTest backend — a Dafny model

BaziTest is the backend of a restaurant-loyalty service. Restaurants sign in, keep a
menu and run promotions. LINE users register with a restaurant and give their birth
data. An external Bazi (Four Pillars) chart service turns the birth data into a main
element (earth, water, fire, metal or wood, named in Thai). A language model writes
a daily prediction from that element, and the user is offered the menus that carry
their element and can claim and redeem promotion coupons.

This project models:

- the two controllers: user-facing `controllers/auth.js` and restaurant-facing
  `controllers/restaurant.js`;
- the SQL statements of `lib/constants.js`, which the controllers run against seven
  tables;
- the sanitisers, the error responder and the field rules of
  `middleware/validation.js`.

Modules:

| file | module | what it holds |
|---|---|---|
| `common.dfy` | `Common` | JavaScript truthiness (`a \|\| b`, `x \|\| null`), `Number()` on digit strings, `split`/`join`, ISO date order |
| `tables.dfy` | `Tables` | one datatype per table row, the database snapshot with the promotions' AUTO_INCREMENT counter, and its invariant |
| `ordering.dfy` | `Ordering` | the engine features the queries rely on: result-set order, `ORDER BY … DESC`, `COALESCE(MAX(…), 0)`, `LIMIT/OFFSET` |
| `queries.dfy` | `Queries` | each SELECT and each UPDATE/DELETE of the catalogue as a function on the tables, with lemmas about it |
| `store.dfy` | `Store` | class `Db`: the seven tables as map fields, one method per INSERT/UPDATE/DELETE, `BEGIN` as a copy and `COMMIT` as a write-back; auto-increment keys |
| `http.dfy` | `Http` | the status code and JSON body of each answer |
| `validation.dfy` | `Validation` | `validate`, `sanitizeString`, `sanitizeObject` (an imperative loop over the own properties) and the concrete field rules |
| `auth.dfy` | `AuthController` | lineUIDCheck, register, editProfile, prediction, recalculatePrediction, findMenu, createCoupon, useCoupon |
| `restaurant.dfy` | `RestaurantController` | login, editRestaurant, menu, addNewMenu, editMenu, createPromotion and the promotion-group handlers, restaurantUser |
| `scenarios.dfy` | `Scenarios` | requests in a row: register twice, redeem twice, predict twice on one day, delete a promotion group and create another before redeeming |

Every handler is a method that takes the database object `db`. A handler that
writes has `modifies db`. It keeps the database invariant `Valid()`: the
uniqueness rules, and every promotion key and every promotion a coupon names below the promotions' AUTO_INCREMENT
counter. It states the new state as a function of `old(db.State())`:
unchanged on every error path, and exactly the rows the handler adds or rewrites
on success. A handler that runs in a transaction works on a copy made by
`Db.Begin` and commits it at the end. A rollback is the copy being discarded, so
a rollback path is one where the state is unchanged.

Calls to code outside the model are parameters of the handler:

- the chart service: `chart`
- the language model: `narrate`
- bcrypt: `compare` and `hash`
- the clock: `now` and `today`
- the configured API key: `keyConfigured`
- crypto's random bytes: `randomHex`

## Model

| member | source | states |
|---|---|---|
| AuthController.LineUidCheck | controllers/auth.js:10-41 | unknown restaurant ⇔ 404 "Restaurant not found"; no user with that LINE id in that restaurant ⇔ 404 Register prompt; otherwise 200 with the member holding both keys, its main element and its favourable elements taken from its profile (NULL without a profile) |
| AuthController.ChartRejection | controllers/auth.js:100-119 | no answer ⇔ the chart is usable; a thrown call gives 503 "Bazi service unavailable", an answer without a summary 502 "Invalid Bazi response", a main element outside the five 502 "Invalid element data" |
| AuthController.Register | controllers/auth.js:43-150 | statuses 201/404/409/502/503 only; any non-201 answer leaves every table unchanged (rollback); 404 ⇔ unknown restaurant, 409 ⇔ already registered; for a new member, 503 ⇔ the chart call fails and 502 ⇔ it answers without a usable chart; 201 ⇔ new member and a usable chart, and then exactly one user row and one element row are added, under the next key, with a main element among the five; the 404, 409, 503 and 502 answers carry "Restaurant not found", "User already registered", "Bazi service unavailable", and "Invalid Bazi response" without a summary or "Invalid element data" otherwise |
| AuthController.MemberStaysUnique | lib/constants.js:11-17 | adding a user whose (LINE id, restaurant) pair matches nobody keeps the pair unique across users |
| AuthController.RegistrationKeepsConsistent | controllers/auth.js:66-126 | adding a new member with its element profile keeps every uniqueness rule and keeps profiles attached to users |
| AuthController.TwoDigitValue | controllers/auth.js:63-64 | the value of a two-digit text is ten times its first digit plus its second |
| AuthController.BirthTimeReachesChart | controllers/auth.js:64-89 | an accepted "HH:MM" birth time reaches the chart request as hour HH and minute MM |
| AuthController.BirthDateReachesChart | controllers/auth.js:63-89 | a "YYYY-MM-DD" birth date reaches the chart request as year, month and day |
| AuthController.Recommendation | controllers/auth.js:350-353 | the recommendation is the choice's content if truthy, else its text if truthy, else the fixed apology; never empty |
| AuthController.BirthChangedExact | controllers/auth.js:187-196 | the birth counts as changed exactly when the merged birth fields differ from the stored ones |
| AuthController.EditProfile | controllers/auth.js:152-272 | 404 ⇔ unknown restaurant or user; for a known member, 503 ⇔ the birth data changed and the chart call fails, 502 ⇔ it changed and the chart is unusable, 500 "Server error" (the undeclared `main_element`) ⇔ it did not change or the chart is usable; no table changes on any path; the answers carry "Restaurant not found" or "User not found", "Bazi service unavailable", and "Invalid Bazi response" without a summary or "Invalid element data" otherwise |
| AuthController.Prediction | controllers/auth.js:274-368 | 404 ⇔ unknown user; a stored prediction for today is answered unchanged with no write; on a miss 400 for an invalid element, 500 without a key, 503 when the call fails, else 200 with the recommendation, saved by the upsert |
| AuthController.RecalculatePrediction | controllers/auth.js:370-430 | throws for an invalid element or a failed call, changing nothing; returns today's stored text when there is one; otherwise returns the recommendation and saves it by the same upsert; the database invariant is kept |
| AuthController.FindMenu | controllers/auth.js:432-450 | 404 ⇔ unknown user; otherwise exactly the AVAILABLE menus of the user's restaurant holding the user's main element, as a permutation of that set, newest first |
| AuthController.CreateCoupon | controllers/auth.js:452-479 | 400 ⇔ the promotion is missing or not active today; 409 ⇔ it is active and the code or the (user, promotion) pair is taken, and nothing is added; 201 ⇔ it is active and neither is taken, and one UNUSED coupon is added whose code is "PROMO-" plus eight upper-case hex digits |
| AuthController.CouponsStayUnique | lib/constants.js:170-173 | a coupon with a new code and a new (user, promotion) pair keeps both unique |
| AuthController.UseCoupon | controllers/auth.js:481-518 | "Invalid or expired coupon" ⇔ no coupon with that code joins a promotion; "Coupon already used" ⇔ one does but none is UNUSED; 200 ⇔ a redeemable coupon exists, which alone becomes USED and whose discount is answered |
| AuthController.LookupDecidesRedemption | controllers/auth.js:489-501 | a redeemable coupon is always found by the code lookup, and the row found is UNUSED exactly when its coupon is redeemable; if it is not, no coupon with the code is |
| AuthController.MarkUsedKeepsConsistent | lib/constants.js:183-187 | marking a coupon used changes no code and no (user, promotion) pair, so the uniqueness rules still hold |
| AuthController.RedeemedCouponIsUsed | lib/constants.js:183-187 | after redemption the code still finds its coupon, it is USED, no coupon with that code is redeemable, and other coupons are untouched |
| RestaurantController.Login | controllers/restaurant.js:9-36 | 200 with the restaurant's id, name and email ⇔ a restaurant has that email and the password matches its hash; unknown email and wrong password get the same 401 |
| RestaurantController.RestaurantUpdate | controllers/restaurant.js:46-53 | the update object holds name and email when truthy and the hash of a truthy password, nothing else |
| RestaurantController.EditRestaurant | controllers/restaurant.js:38-71 | 400 without restaurant_id or with no field to set; 409 ⇔ the new email belongs to another restaurant; 200 ⇔ an id, a field to set and no such clash, with only the supplied columns of that row changed |
| RestaurantController.EmailsStayUnique | controllers/restaurant.js:59-67 | an update whose email no other restaurant has keeps emails unique |
| RestaurantController.MenuPage | controllers/restaurant.js:73-96 | page < 1 ⇔ 500 (negative OFFSET); otherwise 200 with rows (page-1)*10 … +10 of the restaurant's menus newest first, "No menus found" when that slice is empty |
| RestaurantController.NewMenu | controllers/restaurant.js:102-109 | the inserted row: element and image_url NULL when falsy, status AVAILABLE unless a truthy one is given |
| RestaurantController.AddNewMenu | controllers/restaurant.js:98-123 | 201 ⇔ the restaurant exists, adding that row under the next key; 404 with nothing changed otherwise |
| RestaurantController.MenuUpdate | controllers/restaurant.js:133-138 | price is set whenever it is given, every other column only when truthy |
| RestaurantController.EditMenu | controllers/restaurant.js:125-155 | 400 without menuid or with nothing to set; 404 ⇔ no such menu; 200 with exactly that menu's supplied columns changed |
| RestaurantController.PromotionRows | controllers/restaurant.js:175-183 | one row per matched menu, in order, all in the new group, AVAILABLE, description NULL when falsy |
| RestaurantController.CreatePromotion | controllers/restaurant.js:157-201 | 404 ⇔ no AVAILABLE menu holds every requested element, nothing added; otherwise the group id is above every existing group id, one new row per matched menu is added, old rows stay, the count reported is the number matched, and every new key is at or above the AUTO_INCREMENT counter, which moves on by that count |
| RestaurantController.NewRowsMatch | lib/constants.js:135-138 | the inserted block holds one row per listed menu with the group's values |
| RestaurantController.BlockMenuIds | lib/constants.js:135-138 | the menu ids of the inserted block are exactly the listed menus |
| RestaurantController.GetPromotionGroup | controllers/restaurant.js:203-218 | 404 ⇔ the group has no row; otherwise 200 with one of the group's summary rows |
| RestaurantController.UpdatePromotionGroup | controllers/restaurant.js:220-240 | falsy values become NULL and so keep the column; 404 ⇔ the group has no row; 200 with the group's rows updated and all others unchanged |
| RestaurantController.DeletePromotionGroup | controllers/restaurant.js:242-257 | 404 ⇔ the group has no row; otherwise exactly the group's rows are removed |
| RestaurantController.RestaurantUser | controllers/restaurant.js:259-279 | 404 ⇔ the restaurant has no user; otherwise its users newest first (a permutation of the query's set) and one count per main element, largest first |
| Queries.MatchingUsersAtMostOne | lib/constants.js:11-17 | under the member-uniqueness rule, the lookup by LINE id and restaurant finds at most one user, and it carries both keys |
| Queries.ElementCountsExact | lib/constants.js:54-59 | each main element in use has exactly one count row, equal to the number of profiles with it, and no other row appears |
| Queries.RewritePredictionsEffect | lib/constants.js:81-86 | the update rewrites every row of the user, whatever its date, to the new text and date, and no other user's row |
| Queries.UserMenusExact | lib/constants.js:100-110 | a menu is listed ⇔ it belongs to the user's restaurant, is AVAILABLE, and its element array holds the user's main element (users without a profile get none) |
| Queries.MatchingAllAntitone | lib/constants.js:112-117 | asking for more elements never matches more menus |
| Queries.MatchingAllNeedsEvery | lib/constants.js:112-117 | a menu lacking one requested element, or having no element array, is not matched |
| Queries.ActiveOnEveryDayBetween | lib/constants.js:120-128 | a promotion active on two days is active on every day between |
| Queries.ActivePromotionExact | lib/constants.js:120-128 | the checkPromotion lookup finds a row ⇔ the promotion exists and is active today, and then exactly that one |
| Queries.NextGroupId | lib/constants.js:130-133 | the next group id exceeds every existing group id, and is 1 on an empty table |
| Queries.GroupSummariesNonEmpty | lib/constants.js:140-153 | the grouped query has a row ⇔ the group has a member |
| Queries.UpdateGroupEffect | lib/constants.js:155-162 | COALESCE keeps each column whose parameter is NULL and sets the others, on the group's rows only; keys, menus, descriptions and discounts never change |
| Queries.UpdateGroupIdempotent | lib/constants.js:155-162 | applying the same group update twice equals applying it once |
| Queries.DeleteGroupEffect | lib/constants.js:164-167 | the delete removes exactly the group's rows, leaving the rest unchanged, and the number removed is the group's size |
| Queries.CouponLookupExact | lib/constants.js:175-181 | under the unique-code rule the lookup returns exactly one row, the coupon carrying the code, with its status and its promotion's discount |
| Store.UpsertedIsCached | controllers/auth.js:355-361 | after the insert-or-update, today's lookup hits, every hit carries the new text, and other users' rows are untouched |
| Store.NextKey | lib/constants.js:26-29 | an auto-increment key is above every key in use (tables without a DELETE, where the counter is one past the largest key) |
| Store.BlockKeys | lib/constants.js:135-138 | a multi-row insert occupies consecutive keys from the next key, none in use before |
| Store.BlockSize | lib/constants.js:135-138 | the block has as many keys as rows |
| Store.Db.InsertPromotions | lib/constants.js:135-138 | the loop adds the rows in order under consecutive keys starting at the AUTO_INCREMENT counter, keeping every old row; the counter moves past them, so no new key was ever used before, and the database invariant is kept |
| Store.Db.UpdatePromotionGroup | lib/constants.js:155-162 | reports as many rows as the group has, and the table becomes the COALESCE update of exactly the group |
| Store.Db.DeletePromotionGroup | lib/constants.js:164-167 | reports as many rows as the group has, and exactly the group's rows are removed; the AUTO_INCREMENT counter stays |
| Store.InsertPromotionsKeepsConsistent | lib/constants.js:135-138 | the promotion insert keeps every key, and every promotion a coupon names, below the counter |
| Store.Db.InsertUser | lib/constants.js:26-29 | the new user goes under the next key, nothing else changes |
| Store.Db.InsertElement | lib/constants.js:43-46 | the user's element profile is stored under the user's id, nothing else changes |
| Store.Db.UpdateUser | lib/constants.js:31 | only when the user id and restaurant match, the supplied fields replace the stored ones |
| Store.Db.UpdateElement | lib/constants.js:48-52 | the user's profile, if any, takes the new element data |
| Store.Db.SavePrediction | lib/constants.js:69-86 | the predictions table becomes the upsert: every row of the user rewritten when the user has one, otherwise one new row under the next key; nothing else changes |
| Store.Db.UpdateRestaurant | lib/constants.js:8 | refused as duplicate ⇔ another restaurant has the new email; otherwise the patch is applied |
| Store.Db.InsertMenu | lib/constants.js:96 | inserted ⇔ the menu's restaurant exists (the foreign key); then the row goes under the next key, otherwise nothing changes |
| Store.Db.UpdateMenu | lib/constants.js:98 | one row affected ⇔ the menu exists, which takes the patch; otherwise nothing changes |
| Store.Db.InsertCoupon | lib/constants.js:170-173 | inserted ⇔ the code and the (user, promotion) pair are both new |
| Store.Db.MarkCouponUsed | lib/constants.js:183-187 | exactly that coupon becomes USED, stamped with the time |
| Store.Db.Begin | controllers/auth.js:47 | BEGIN: the transaction starts from a copy equal to the database |
| Store.Db.Commit | controllers/auth.js:128 | COMMIT: the database becomes the transaction's tables |
| Validation.Validate | middleware/validation.js:3-12 | no errors ⇔ the request passes; otherwise 400 listing one field/message pair per error, in order |
| Validation.Trim | middleware/validation.js:16 | the trim is a middle slice of the input with only white space cut at either end and no white space at either end of the result |
| Validation.RemoveAngles | middleware/validation.js:16 | no '<' or '>' remains, every other character keeps its count, and a single character is deleted exactly when it is a bracket |
| Validation.RemoveAnglesAppend | middleware/validation.js:16 | deleting the brackets of a concatenation deletes them from each part and keeps the parts in order, so the result is the input's other characters in their order |
| Validation.SanitizeStringSpec | middleware/validation.js:14-17 | the output has no angle bracket and is the trimmed input with each bracket deleted in place: cut anywhere, it is the cleaned front followed by the cleaned back; a trimmed, bracket-free string is unchanged |
| Validation.SanitizeStringNotTrimmed | middleware/validation.js:16 | because the deletion follows the trim, "< a" gives " a", which is not trimmed |
| Validation.SanitizeStringNotIdempotent | middleware/validation.js:16 | sanitising "a <" gives "a ", which sanitises again to "a" |
| Validation.SanitizeValue | middleware/validation.js:15 | non-strings are returned unchanged; a string comes back as its trimmed text with the brackets deleted |
| Validation.Put | middleware/validation.js:24-26 | assigning a property to an object with distinct keys gives that key the new value in its place and leaves every other entry where it was; a new key is appended; the key set gains exactly that key |
| Validation.DecimalRoundTrip | middleware/validation.js:22 | the decimal key `Object.entries` gives an array index is all digits and reads back as the index, so the keys of an array are distinct |
| Validation.SanitizeObject | middleware/validation.js:19-31 | falsy and non-object inputs come back as they are; otherwise the result has the same keys, in order, with each string value sanitised and every other value kept |
| Validation.PhoneSurvivesSanitize | middleware/validation.js:44-47 | an accepted phone number is only trimmed by the sanitiser and stays accepted |
| Validation.BirthTimeExact | middleware/validation.js:49-50 | a birth time is accepted ⇔ it is "HH:MM" for hour 0–23 and minute 0–59 |
| Validation.ChoicesSurviveSanitize | middleware/validation.js:43 | every value the gender and status rules accept is a fixed point of the sanitiser, so it still passes its rule afterwards |
| RestaurantController.MenuRoute | middleware/validation.js:103-107 | 400 ⇔ restaurant_id or page is not an integer of at least 1, listing "Invalid value" for the first and "Page must be a positive integer" for the second exactly when each fails; otherwise 200 (never the 500 of a negative OFFSET) with the page starting at row (page-1)*10 of the restaurant's menus, newest first |
| Common.SplitJoinRoundTrip | controllers/auth.js:63-64 | splitting on a separator and joining back gives the input |
| Common.DateLeTransitive | lib/constants.js:125-126 | the date comparison is transitive |
| Common.DateLeTotal | lib/constants.js:125-126 | any two dates are comparable |
| Ordering.MaxOr | lib/constants.js:131 | the maximum of a non-empty set is in the set and bounds it; the default otherwise |
| Ordering.InsertByKeySorted | lib/constants.js:39 | inserting into a descending sequence keeps it descending |
| Ordering.OrderByDesc | lib/constants.js:92 | the ordered rows are a permutation of the set, sorted by the key descending |
| Ordering.FirstPagesArePrefix | lib/constants.js:93 | reading pages 1..n in turn yields exactly the first n·limit rows: no row skipped or repeated |
| Scenarios.RegisterTwice | controllers/auth.js:57-61 | once a registration succeeds, the same one again answers 409 "User already registered" |
| Scenarios.RedeemTwice | controllers/auth.js:495-501 | once a code is redeemed, redeeming it again answers "Coupon already used" |
| Scenarios.PredictionTwice | controllers/auth.js:285-289 | after a successful prediction a second one the same day also succeeds, and when the first was freshly generated the second is the same text |
| Scenarios.DeleteThenCreate | controllers/restaurant.js:242-246 | after a promotion group is deleted and a new one created, a coupon of the deleted group joins no promotion (lib/constants.js:175-182) and is refused as invalid |

## Left out

- `Number()` is modelled on digit strings, where it gives their value; on any other text it gives no number, as `NaN` does in the code. The birth-time rule lets only "HH:MM" digit pairs through, but `isDate` with the format "YYYY-MM-DD" is not strict and also accepts '/' as the delimiter. A date such as "1990/05/20" therefore reaches the chart request with no year, month or day. The calendar validity that `isDate` checks is not modelled.
- The database driver: `executeQuery` and `pool.connect` are not defined by `lib/db.js`, and the code mixes `.rows` with mysql2's array results. The model gives each statement the meaning the SQL has.
- Driver error codes: PostgreSQL's 23505 in `createCoupon` and MySQL's `ER_DUP_ENTRY` in `editRestaurant` are both taken as "unique key violated".
- The column types: a `DATE` or `TIME` column read back by mysql2 is not a string. The model compares birth data as strings, which makes `birthChanged` and `split` behave as the code intends.
- `editProfile`'s `SET ?` is given eight values. The model applies the supplied fields to the row of that id and restaurant.
- Storage failures, such as a lost connection or a timeout, are not modelled. Those 500 answers occur only on the paths the model states: the undeclared name in `editProfile` and the negative OFFSET in `menu`.
- Foreign keys are not modelled except `menu.restaurant_id`, which `addNewMenu` relies on for its 404.
- Auto-increment counters: the promotions table keeps its counter, which a DELETE does not lower. The other tables take one past their largest key, which is the counter there because they have no DELETE. Values consumed by a rolled-back insert are not modelled: after a rollback the counter is back where it was.
- The JSON text of element arrays (`JSON.stringify` and `JSON.parse`) is not modelled. An element array is a sequence of strings throughout.
- The prompt text, the request headers, the timeouts and the JSON shapes of the chart and language-model services are not modelled. Each call is a parameter returning failure or its answer.
- Concurrency between requests is not modelled. Two requests racing past the same uniqueness check are outside the model.
- Rate limiting, CORS, security headers, the error handler, the router and `lib/db.js` are not part of this model.
- express-validator's generic chain (`optional`, `notEmpty`, `isLength`, `isEmail`, `isDate`, `isISO8601`, custom messages) is not modelled. The concrete rules it applies are modelled: phone, birth_time, gender, status and the integer rules.
- Validation.SanitizeObject: the key order JavaScript gives integer-like keys and the `__proto__` key are not modelled. The entries of a non-array object are taken as given, and its result is stated when the keys are distinct.
- AuthController.UseCoupon: the coupon's expiry is not checked, as in the code. The join only requires the promotion to exist.
- RestaurantController.RestaurantUser: the element counts cover every profile in the database, as the SQL has no restaurant filter.
- RestaurantController.GetPromotionGroup: which summary row comes first when a group's rows differ in their grouped columns is not stated. The model answers one of them.
- Text matching: MySQL's default collation compares `line_uid`, `email` and coupon `code` without regard to case and trailing spaces. The model compares them as exact strings, so it can accept as distinct two values the database takes as equal.
- Promotion dates: the `isISO8601` rules (middleware/validation.js:133-134) accept timestamps such as "2025-01-05T10:00:00Z", which a `DATE` column truncates to the day. The model keeps the strings as given and compares them lexicographically, which agrees with the database only for plain "YYYY-MM-DD" dates.
- RestaurantController.GetPromotionGroup: `GROUP_CONCAT(menu_id)` (lib/constants.js:143) is a comma-joined string in no guaranteed order, with duplicates and a length cap. The model answers the set of menu ids, so order, repetition and truncation are not captured.
