/** The rows of the seven tables the handlers read and write, the database as a
    value (one map per table, keyed by the row's id), and the uniqueness rules the
    handlers and the storage constraints keep. */
module Tables {
  import opened Common

  const AVAILABLE: string := "AVAILABLE"
  const UNAVAILABLE: string := "UNAVAILABLE"
  const UNUSED: string := "UNUSED"
  const USED: string := "USED"

  /** `password` holds the bcrypt hash, never the clear text. */
  datatype Restaurant = Restaurant(name: string, email: string, password: string)

  datatype User = User(
    lineUid: string,
    restaurantId: Id,
    name: string,
    gender: string,
    phone: string,
    birthDate: string,
    birthTime: string,
    birthPlace: string,
    createdAt: Timestamp)

  /** Element arrays are stored as JSON text; a JSON array of strings is a
      `seq<string>` here and SQL NULL is None. */
  datatype UserElement = UserElement(
    mainElement: string,
    favorable: Option<seq<string>>,
    unfavorable: Option<seq<string>>,
    createdAt: Timestamp,
    updatedAt: Option<Timestamp>)

  datatype Prediction = Prediction(
    userId: Id,
    date: Date,
    text: string,
    createdAt: Timestamp,
    updatedAt: Option<Timestamp>)

  datatype Menu = Menu(
    restaurantId: Id,
    name: string,
    price: real,
    element: Option<seq<string>>,
    imageUrl: Option<string>,
    status: string,
    createdAt: Timestamp)

  datatype Promotion = Promotion(
    groupId: int,
    menuId: Id,
    description: Option<string>,
    discount: real,
    startDate: Date,
    endDate: Date,
    status: string,
    updatedAt: Option<Timestamp>)

  datatype Coupon = Coupon(
    userId: Id,
    promotionId: Id,
    code: string,
    status: string,
    createdAt: Timestamp,
    usedAt: Option<Timestamp>)

  /** The whole database. `userElements` is keyed by `user_id`: the element profile
      is one-to-one with its user. `nextPromotionKey` is the AUTO_INCREMENT counter of
      the promotions table: the key its next row gets, which a DELETE does not lower. */
  datatype Tables = Tables(
    restaurants: map<Id, Restaurant>,
    users: map<Id, User>,
    userElements: map<Id, UserElement>,
    predictions: map<Id, Prediction>,
    menus: map<Id, Menu>,
    promotions: map<Id, Promotion>,
    coupons: map<Id, Coupon>,
    nextPromotionKey: Id)

  /** No two users share a (line_uid, restaurant_id) pair. */
  ghost predicate UniqueMembers(users: map<Id, User>) {
    forall a, b ::
      (a in users && b in users && users[a].lineUid == users[b].lineUid
       && users[a].restaurantId == users[b].restaurantId) ==> a == b
  }

  /** No two restaurants share an email (a unique column). */
  ghost predicate UniqueEmails(restaurants: map<Id, Restaurant>) {
    forall a, b :: a in restaurants && b in restaurants && restaurants[a].email == restaurants[b].email ==> a == b
  }

  /** Coupon codes are unique, and a user holds at most one coupon per promotion
      (both unique constraints of the coupons table). */
  ghost predicate UniqueCoupons(coupons: map<Id, Coupon>) {
    && (forall a, b :: a in coupons && b in coupons && coupons[a].code == coupons[b].code ==> a == b)
    && (forall a, b ::
          (a in coupons && b in coupons && coupons[a].userId == coupons[b].userId
           && coupons[a].promotionId == coupons[b].promotionId) ==> a == b)
  }

  /** Every element profile belongs to an existing user. */
  ghost predicate ElementsOfUsers(t: Tables) {
    t.userElements.Keys <= t.users.Keys
  }

  /** Every promotion key, and every promotion a coupon was issued for, lies below the
      counter: a key the counter has passed is never handed out again. */
  ghost predicate PromotionKeysIssued(t: Tables) {
    && (forall k :: k in t.promotions ==> k < t.nextPromotionKey)
    && (forall id :: id in t.coupons ==> t.coupons[id].promotionId < t.nextPromotionKey)
  }

  ghost predicate Consistent(t: Tables) {
    && UniqueMembers(t.users) && UniqueEmails(t.restaurants) && UniqueCoupons(t.coupons) && ElementsOfUsers(t)
    && PromotionKeysIssued(t)
  }
}
