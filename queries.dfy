/** The statement catalogue of lib/constants.js: each SELECT as a pure function over
    the tables it reads (its WHERE, JOIN and GROUP BY), each UPDATE / DELETE as the
    new table its SET and WHERE clauses produce. INSERTs, which need a fresh
    auto-increment key, are the write methods of Store.Db. */
module Queries {
  import opened Common
  import opened Tables
  import Ordering

  /** A `menu` row as the listing queries return it. */
  datatype MenuRow = MenuRow(id: Id, menu: Menu)

  /** A user row LEFT JOINed with its element profile. */
  datatype MemberRow = MemberRow(id: Id, user: User, element: Option<UserElement>)

  /** One row of `getPromotionGroup`: the GROUP BY columns, the member menus
      (GROUP_CONCAT(menu_id)) and COUNT(*). */
  datatype GroupSummary = GroupSummary(
    groupId: int,
    menuIds: set<Id>,
    description: Option<string>,
    discount: real,
    startDate: Date,
    endDate: Date,
    status: string,
    menuCount: nat)

  /** One row of `checkCoupon`: a coupon INNER JOINed with its promotion. */
  datatype CouponRow = CouponRow(couponId: Id, status: string, code: string, discount: real, expiresAt: Date)

  /** One row of `findUser`. */
  datatype UserListing = UserListing(id: Id, name: string, lineUid: string, phone: string, gender: string,
                                     createdAt: Timestamp, mainElement: Option<string>,
                                     favorable: Option<seq<string>>)

  /** One row of `coolactElement`. */
  datatype ElementCount = ElementCount(element: string, count: nat)

  // ---------------------------------------------------------------- restaurants

  /** restaurantLogin: `WHERE email = ?`. */
  function RestaurantsWithEmail(rs: map<Id, Restaurant>, email: string): set<Id> {
    set id | id in rs && rs[id].email == email
  }

  /** editRestaurant's `SET ?` with the fields the handler put in its update object. */
  datatype RestaurantPatch = RestaurantPatch(name: Option<string>, email: Option<string>, password: Option<string>)

  function ApplyRestaurantPatch(r: Restaurant, p: RestaurantPatch): Restaurant {
    Restaurant(
      if p.name.Some? then p.name.value else r.name,
      if p.email.Some? then p.email.value else r.email,
      if p.password.Some? then p.password.value else r.password)
  }

  // ---------------------------------------------------------------- users

  /** CheckUser: `WHERE u.line_uid = ? AND u.restaurant_id = ?`. */
  function MatchingUsers(users: map<Id, User>, lineUid: string, restaurantId: Id): set<Id> {
    set id | id in users && users[id].lineUid == lineUid && users[id].restaurantId == restaurantId
  }

  /** The user lookup keys on both columns: under the (line_uid, restaurant_id)
      uniqueness rule it finds at most one user, and the one it finds carries both. */
  lemma MatchingUsersAtMostOne(users: map<Id, User>, lineUid: string, restaurantId: Id)
    requires UniqueMembers(users)
    ensures forall a, b ::
              (a in MatchingUsers(users, lineUid, restaurantId) && b in MatchingUsers(users, lineUid, restaurantId))
              ==> a == b
    ensures forall a :: a in MatchingUsers(users, lineUid, restaurantId) ==>
              users[a].lineUid == lineUid && users[a].restaurantId == restaurantId
  {
  }

  /** `LEFT JOIN user_elements e ON u.id = e.user_id`. */
  function MemberRowOf(users: map<Id, User>, elements: map<Id, UserElement>, id: Id): MemberRow
    requires id in users
  {
    MemberRow(id, users[id], if id in elements then Some(elements[id]) else None)
  }

  /** `e.main_element` of the LEFT JOIN: NULL when the user has no element profile. */
  function MainElementOf(elements: map<Id, UserElement>, userId: Id): Option<string> {
    if userId in elements then Some(elements[userId].mainElement) else None
  }

  /** editProfile's update of the user row, with the fields that were supplied. */
  datatype ProfilePatch = ProfilePatch(
    name: Option<string>, gender: Option<string>, phone: Option<string>,
    birthDate: Option<string>, birthTime: Option<string>, birthPlace: Option<string>)

  function ApplyProfilePatch(u: User, p: ProfilePatch): User {
    u.(name := OrElse(p.name, u.name),
       gender := OrElse(p.gender, u.gender),
       phone := OrElse(p.phone, u.phone),
       birthDate := OrElse(p.birthDate, u.birthDate),
       birthTime := OrElse(p.birthTime, u.birthTime),
       birthPlace := OrElse(p.birthPlace, u.birthPlace))
  }

  /** findUser: the users of one restaurant, LEFT JOINed with their element profile. */
  function RestaurantUsers(users: map<Id, User>, elements: map<Id, UserElement>, restaurantId: Id): set<UserListing> {
    set id | id in users && users[id].restaurantId == restaurantId ::
      var u := users[id];
      UserListing(id, u.name, u.lineUid, u.phone, u.gender, u.createdAt,
                  MainElementOf(elements, id),
                  if id in elements then elements[id].favorable else None)
  }

  /** The users with a given main element. */
  function UsersWithElement(elements: map<Id, UserElement>, e: string): set<Id> {
    set id | id in elements && elements[id].mainElement == e
  }

  /** coolactElement: `GROUP BY main_element` with COUNT(*), over every restaurant. */
  function ElementCounts(elements: map<Id, UserElement>): set<ElementCount> {
    set id | id in elements :: ElementCount(elements[id].mainElement, |UsersWithElement(elements, elements[id].mainElement)|)
  }

  /** Each main element in use gets exactly one count row, and its count is the number of
      profiles with that element; no other rows appear. */
  lemma ElementCountsExact(elements: map<Id, UserElement>)
    ensures forall id :: id in elements ==>
              ElementCount(elements[id].mainElement, |UsersWithElement(elements, elements[id].mainElement)|)
                in ElementCounts(elements)
    ensures forall c :: c in ElementCounts(elements) ==>
              c.count == |UsersWithElement(elements, c.element)| && c.count >= 1
    ensures forall c, d ::
              (c in ElementCounts(elements) && d in ElementCounts(elements) && c.element == d.element) ==> c == d
  {
    forall c | c in ElementCounts(elements)
      ensures c.count == |UsersWithElement(elements, c.element)| && c.count >= 1
    {
      var id :| id in elements && c == ElementCount(elements[id].mainElement,
                                                    |UsersWithElement(elements, elements[id].mainElement)|);
      assert id in UsersWithElement(elements, c.element);
    }
  }

  // ---------------------------------------------------------------- predictions

  /** checkPrediction: `WHERE user_id = ? AND prediction_date = ?`. */
  function PredictionsOn(predictions: map<Id, Prediction>, userId: Id, date: Date): set<Id> {
    set id | id in predictions && predictions[id].userId == userId && predictions[id].date == date
  }

  /** checkPredictionBefor: does the user have any prediction row, of any date. */
  predicate HasPrediction(predictions: map<Id, Prediction>, userId: Id) {
    exists id | id in predictions :: predictions[id].userId == userId
  }

  /** updatePrediction: `SET prediction_text = ?, prediction_date = ?, updated_at = NOW()
      WHERE user_id = ?` -- every row of the user, whatever its date. */
  function RewritePredictions(predictions: map<Id, Prediction>, userId: Id, text: string, date: Date,
                              now: Timestamp): map<Id, Prediction>
  {
    map id | id in predictions ::
      if predictions[id].userId == userId
      then predictions[id].(text := text, date := date, updatedAt := Some(now))
      else predictions[id]
  }

  /** The rewrite keeps every row, leaves other users' rows alone, and afterwards the
      user's cache lookup for `date` finds exactly the user's rows, all carrying `text`. */
  lemma RewritePredictionsEffect(predictions: map<Id, Prediction>, userId: Id, text: string, date: Date,
                                 now: Timestamp)
    ensures var r := RewritePredictions(predictions, userId, text, date, now);
      && r.Keys == predictions.Keys
      && (forall id :: id in predictions && predictions[id].userId != userId ==> r[id] == predictions[id])
      && PredictionsOn(r, userId, date) == (set id | id in predictions && predictions[id].userId == userId)
      && (forall id :: id in PredictionsOn(r, userId, date) ==> r[id].text == text)
  {
  }

  // ---------------------------------------------------------------- menus

  /** `JSON_CONTAINS(element, JSON_QUOTE(e))`: a NULL element never contains anything. */
  predicate ContainsScalar(element: Option<seq<string>>, e: string) {
    element.Some? && e in element.value
  }

  /** `JSON_CONTAINS(element, <requested array>)`: every requested element is present. */
  predicate ContainsAll(element: Option<seq<string>>, requested: seq<string>) {
    element.Some? && forall i :: 0 <= i < |requested| ==> requested[i] in element.value
  }

  /** getMenu's WHERE: the menus of one restaurant, of any status. */
  function RestaurantMenus(menus: map<Id, Menu>, restaurantId: Id): set<MenuRow> {
    set id | id in menus && menus[id].restaurantId == restaurantId :: MenuRow(id, menus[id])
  }

  /** findMenuElementLike: the user's restaurant's AVAILABLE menus whose element array
      holds the user's main element (the INNER JOIN drops users without a profile). */
  function UserMenus(menus: map<Id, Menu>, users: map<Id, User>, elements: map<Id, UserElement>,
                     userId: Id, restaurantId: Id): set<MenuRow>
  {
    set id | id in menus && userId in users && userId in elements
             && menus[id].restaurantId == users[userId].restaurantId
             && menus[id].restaurantId == restaurantId
             && menus[id].status == AVAILABLE
             && ContainsScalar(menus[id].element, elements[userId].mainElement)
      :: MenuRow(id, menus[id])
  }

  /** A row is listed for the user exactly when it is an AVAILABLE menu of the user's own
      restaurant whose element array holds the user's main element. */
  lemma UserMenusExact(menus: map<Id, Menu>, users: map<Id, User>, elements: map<Id, UserElement>,
                       userId: Id, row: MenuRow)
    requires userId in users
    ensures row in UserMenus(menus, users, elements, userId, users[userId].restaurantId) <==>
      && row.id in menus && row.menu == menus[row.id]
      && row.menu.restaurantId == users[userId].restaurantId
      && row.menu.status == AVAILABLE
      && userId in elements && row.menu.element.Some?
      && elements[userId].mainElement in row.menu.element.value
  {
  }

  /** findMenuelelemet: AVAILABLE menus of ANY restaurant whose element array contains
      every requested element. */
  function MenusMatchingAll(menus: map<Id, Menu>, requested: seq<string>): set<Id> {
    set id | id in menus && ContainsAll(menus[id].element, requested) && menus[id].status == AVAILABLE
  }

  /** The match is "contains all", so asking for more elements can only match fewer menus. */
  lemma MatchingAllAntitone(menus: map<Id, Menu>, requested: seq<string>, more: seq<string>)
    ensures MenusMatchingAll(menus, requested + more) <= MenusMatchingAll(menus, requested)
  {
    forall id | id in MenusMatchingAll(menus, requested + more)
      ensures id in MenusMatchingAll(menus, requested)
    {
      var es := menus[id].element.value;
      forall i | 0 <= i < |requested| ensures requested[i] in es {
        assert (requested + more)[i] == requested[i];
      }
    }
  }

  /** A menu with a NULL element array never matches, and a menu holding only some of the
      requested elements does not match (it is not an intersection test). */
  lemma MatchingAllNeedsEvery(menus: map<Id, Menu>, requested: seq<string>, id: Id, missing: nat)
    requires id in menus
    requires menus[id].element.None? || (missing < |requested| && requested[missing] !in menus[id].element.value)
    ensures id !in MenusMatchingAll(menus, requested)
  {
  }

  /** editMenu's `SET ?` with the fields the handler put in its update object. */
  datatype MenuPatch = MenuPatch(
    name: Option<string>, price: Option<real>, element: Option<seq<string>>,
    imageUrl: Option<string>, status: Option<string>)

  predicate IsEmptyMenuPatch(p: MenuPatch) {
    p.name.None? && p.price.None? && p.element.None? && p.imageUrl.None? && p.status.None?
  }

  function ApplyMenuPatch(m: Menu, p: MenuPatch): Menu {
    m.(name := if p.name.Some? then p.name.value else m.name,
       price := if p.price.Some? then p.price.value else m.price,
       element := if p.element.Some? then p.element else m.element,
       imageUrl := if p.imageUrl.Some? then p.imageUrl else m.imageUrl,
       status := if p.status.Some? then p.status.value else m.status)
  }

  // ---------------------------------------------------------------- promotions

  /** checkPromotion's condition: `status = 'AVAILABLE' AND start_date <= CURDATE()
      AND end_date >= CURDATE()`. */
  predicate IsActive(p: Promotion, today: Date) {
    p.status == AVAILABLE && DateLe(p.startDate, today) && DateLe(today, p.endDate)
  }

  /** checkPromotion: the promotion with the given id, if it is active today. */
  function ActivePromotion(promotions: map<Id, Promotion>, id: Id, today: Date): set<Id> {
    set k | k in promotions && k == id && IsActive(promotions[k], today)
  }

  /** The lookup finds a row exactly when the promotion exists and is active today. */
  lemma ActivePromotionExact(promotions: map<Id, Promotion>, id: Id, today: Date)
    ensures ActivePromotion(promotions, id, today) != {} <==> id in promotions && IsActive(promotions[id], today)
    ensures ActivePromotion(promotions, id, today) != {} ==> ActivePromotion(promotions, id, today) == {id}
  {
    if id in promotions && IsActive(promotions[id], today) {
      assert id in ActivePromotion(promotions, id, today);
    }
  }

  /** An active window has no holes: a promotion active on two days is active on every
      day between them. */
  lemma {:induction false} ActiveOnEveryDayBetween(p: Promotion, first: Date, day: Date, last: Date)
    requires IsActive(p, first) && IsActive(p, last)
    requires DateLe(first, day) && DateLe(day, last)
    ensures IsActive(p, day)
  {
    DateLeTransitive(p.startDate, first, day);
    DateLeTransitive(day, last, p.endDate);
  }

  /** The group ids in use. */
  function GroupIds(promotions: map<Id, Promotion>): set<int> {
    set id | id in promotions :: promotions[id].groupId
  }

  /** createGroupPromotion: `COALESCE(MAX(promotion_group_id), 0) + 1`. */
  ghost function NextGroupId(promotions: map<Id, Promotion>): (g: int)
    ensures forall id :: id in promotions ==> promotions[id].groupId < g
    ensures promotions == map[] ==> g == 1
  {
    assert forall id :: id in promotions ==> promotions[id].groupId in GroupIds(promotions);
    Ordering.MaxOr(GroupIds(promotions), 0) + 1
  }

  /** The rows of one group (`WHERE promotion_group_id = ?`). */
  function GroupMembers(promotions: map<Id, Promotion>, groupId: int): set<Id> {
    set id | id in promotions && promotions[id].groupId == groupId
  }

  /** The members of a group that share one set of GROUP BY columns with row `k`. */
  function SameColumns(promotions: map<Id, Promotion>, groupId: int, k: Id): set<Id>
    requires k in promotions
  {
    var p := promotions[k];
    set id | id in promotions && promotions[id].groupId == groupId && promotions[id].description == p.description
             && promotions[id].discount == p.discount && promotions[id].startDate == p.startDate
             && promotions[id].endDate == p.endDate && promotions[id].status == p.status
  }

  /** getPromotionGroup: `GROUP BY promotion_group_id, description, discount_value,
      start_date, end_date, status` over the group's rows. */
  function GroupSummaries(promotions: map<Id, Promotion>, groupId: int): set<GroupSummary> {
    set k | k in promotions && promotions[k].groupId == groupId ::
      var p := promotions[k];
      var same := SameColumns(promotions, groupId, k);
      GroupSummary(groupId, set id | id in same :: promotions[id].menuId,
                   p.description, p.discount, p.startDate, p.endDate, p.status, |same|)
  }

  /** A group has a summary row exactly when it has a member row. */
  lemma GroupSummariesNonEmpty(promotions: map<Id, Promotion>, groupId: int)
    ensures GroupSummaries(promotions, groupId) == {} <==> GroupMembers(promotions, groupId) == {}
  {
    if GroupSummaries(promotions, groupId) != {} {
      var s := Ordering.Any(GroupSummaries(promotions, groupId));
      var k :| k in promotions && promotions[k].groupId == groupId && s.groupId == groupId;
      assert k in GroupMembers(promotions, groupId);
    }
    if GroupMembers(promotions, groupId) != {} {
      var k := Ordering.Any(GroupMembers(promotions, groupId));
      var p := promotions[k];
      var same := SameColumns(promotions, groupId, k);
      assert GroupSummary(groupId, set id | id in same :: promotions[id].menuId,
                          p.description, p.discount, p.startDate, p.endDate, p.status, |same|)
        in GroupSummaries(promotions, groupId);
    }
  }

  /** COALESCE(param, column). */
  function Coalesce<T>(param: Option<T>, column: T): T {
    if param.Some? then param.value else column
  }

  /** updatePromotionGroup: `SET start_date = COALESCE(?, start_date), end_date =
      COALESCE(?, end_date), status = COALESCE(?, status), updated_at = NOW()
      WHERE promotion_group_id = ?`. */
  function UpdateGroup(promotions: map<Id, Promotion>, groupId: int, start: Option<Date>, end: Option<Date>,
                       status: Option<string>, now: Timestamp): map<Id, Promotion>
  {
    map id | id in promotions ::
      var p := promotions[id];
      if p.groupId == groupId
      then p.(startDate := Coalesce(start, p.startDate), endDate := Coalesce(end, p.endDate),
              status := Coalesce(status, p.status), updatedAt := Some(now))
      else p
  }

  /** The group update keeps every row, touches only the group's rows, leaves a column
      whose parameter is NULL as it was, and sets every supplied column. */
  lemma UpdateGroupEffect(promotions: map<Id, Promotion>, groupId: int, start: Option<Date>, end: Option<Date>,
                          status: Option<string>, now: Timestamp)
    ensures var r := UpdateGroup(promotions, groupId, start, end, status, now);
      && r.Keys == promotions.Keys
      && (forall id :: id in promotions && promotions[id].groupId != groupId ==> r[id] == promotions[id])
      && (forall id :: id in promotions ==>
            r[id].groupId == promotions[id].groupId && r[id].menuId == promotions[id].menuId
            && r[id].description == promotions[id].description && r[id].discount == promotions[id].discount)
      && (forall id :: id in GroupMembers(promotions, groupId) ==>
            (start.None? ==> r[id].startDate == promotions[id].startDate)
            && (start.Some? ==> r[id].startDate == start.value)
            && (end.None? ==> r[id].endDate == promotions[id].endDate)
            && (end.Some? ==> r[id].endDate == end.value)
            && (status.None? ==> r[id].status == promotions[id].status)
            && (status.Some? ==> r[id].status == status.value))
  {
  }

  /** Running the same group update twice has the effect of running it once. */
  lemma UpdateGroupIdempotent(promotions: map<Id, Promotion>, groupId: int, start: Option<Date>, end: Option<Date>,
                              status: Option<string>, now: Timestamp)
    ensures var once := UpdateGroup(promotions, groupId, start, end, status, now);
      UpdateGroup(once, groupId, start, end, status, now) == once
  {
    var once := UpdateGroup(promotions, groupId, start, end, status, now);
    var twice := UpdateGroup(once, groupId, start, end, status, now);
    assert twice.Keys == once.Keys;
    forall id | id in once ensures twice[id] == once[id] {
    }
  }

  /** deletePromotionGroup: `DELETE FROM promotions WHERE promotion_group_id = ?`. */
  function DeleteGroup(promotions: map<Id, Promotion>, groupId: int): map<Id, Promotion> {
    map id | id in promotions && promotions[id].groupId != groupId :: promotions[id]
  }

  /** The delete removes exactly the group's rows and no other, so the number of rows
      removed is the number of members. */
  lemma DeleteGroupEffect(promotions: map<Id, Promotion>, groupId: int)
    ensures var r := DeleteGroup(promotions, groupId);
      && r.Keys == promotions.Keys - GroupMembers(promotions, groupId)
      && (forall id :: id in r ==> r[id] == promotions[id])
      && |promotions.Keys| == |r.Keys| + |GroupMembers(promotions, groupId)|
      && GroupMembers(r, groupId) == {}
  {
    var r := DeleteGroup(promotions, groupId);
    assert r.Keys == promotions.Keys - GroupMembers(promotions, groupId);
    assert GroupMembers(promotions, groupId) <= promotions.Keys;
    assert promotions.Keys == r.Keys + GroupMembers(promotions, groupId);
  }

  // ---------------------------------------------------------------- coupons

  /** checkCoupon: `FROM coupons c INNER JOIN promotions p ON c.promotion_id = p.id
      WHERE c.code = ?` -- a coupon whose promotion is gone is not found. */
  function CouponsWithCode(coupons: map<Id, Coupon>, promotions: map<Id, Promotion>, code: string): set<CouponRow> {
    set id | id in coupons && coupons[id].code == code && coupons[id].promotionId in promotions ::
      CouponRow(id, coupons[id].status, code, promotions[coupons[id].promotionId].discount,
                promotions[coupons[id].promotionId].endDate)
  }

  /** Under the unique-code rule the lookup finds at most one coupon, and it is the coupon
      carrying that code. */
  lemma CouponLookupExact(coupons: map<Id, Coupon>, promotions: map<Id, Promotion>, code: string, row: CouponRow)
    requires UniqueCoupons(coupons)
    requires row in CouponsWithCode(coupons, promotions, code)
    ensures CouponsWithCode(coupons, promotions, code) == {row}
    ensures row.couponId in coupons && coupons[row.couponId].code == code
    ensures row.status == coupons[row.couponId].status
    ensures row.discount == promotions[coupons[row.couponId].promotionId].discount
  {
    forall other | other in CouponsWithCode(coupons, promotions, code) ensures other == row {
    }
  }

  /** addCoupon violates a unique key: the code is taken, or the user already holds a
      coupon of that promotion. */
  predicate CouponClash(coupons: map<Id, Coupon>, userId: Id, promotionId: Id, code: string) {
    || (exists id :: id in coupons && coupons[id].code == code)
    || (exists id :: id in coupons && coupons[id].userId == userId && coupons[id].promotionId == promotionId)
  }

  /** useCoupon: `SET status = 'USED', used_at = NOW() WHERE id = ?`. */
  function MarkUsed(coupons: map<Id, Coupon>, id: Id, now: Timestamp): map<Id, Coupon> {
    if id in coupons then coupons[id := coupons[id].(status := USED, usedAt := Some(now))] else coupons
  }
}
