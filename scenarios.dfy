/** Requests in sequence: what a second identical request meets after a first one
    succeeded. */
module Scenarios {
  import opened Common
  import opened Tables
  import opened Queries
  import opened Http
  import Store
  import AuthController
  import RestaurantController

  /** The same LINE user registering twice with one restaurant: once the first succeeds,
      the second is refused with 409 and changes nothing. */
  method RegisterTwice(db: Store.Db, lineUid: string, name: string, gender: string, phone: string,
                       birthDate: string, birthTime: string, birthPlace: string, restaurantId: Id,
                       chart: AuthController.ChartRequest -> AuthController.ChartOutcome, now1: Timestamp, now2: Timestamp)
    returns (first: Response, second: Response)
    requires db.Valid()
    modifies db
    ensures db.Valid()
    ensures first.status == 201 ==> second == Response(409, Message("User already registered"))
  {
    first := AuthController.Register(db, lineUid, name, gender, phone, birthDate, birthTime, birthPlace,
                                     restaurantId, chart, now1);
    if first.status == 201 {
      assert first.payload.userId in MatchingUsers(db.users, lineUid, restaurantId);
    }
    second := AuthController.Register(db, lineUid, name, gender, phone, birthDate, birthTime, birthPlace,
                                      restaurantId, chart, now2);
  }

  /** Redeeming one code twice: once the first redemption succeeds, the second answers
      "Coupon already used" and changes nothing. */
  method RedeemTwice(db: Store.Db, code: string, now1: Timestamp, now2: Timestamp)
    returns (first: Response, second: Response)
    requires db.Valid()
    modifies db
    ensures db.Valid()
    ensures first.status == 200 ==> second == Response(400, Message("Coupon already used"))
  {
    ghost var coupons := db.coupons;
    ghost var promotions := db.promotions;
    first := AuthController.UseCoupon(db, code, now1);
    if first.status == 200 {
      ghost var id :| AuthController.Redeemable(coupons, promotions, code, id)
                && db.State() == old(db.State()).(coupons := MarkUsed(coupons, id, now1));
      AuthController.RedeemedCouponIsUsed(coupons, promotions, code, id, now1);
    }
    second := AuthController.UseCoupon(db, code, now2);
  }

  /** Asking for today's prediction twice: when the first answer was generated, the second
      is the same text, served from the stored row with no further write. */
  method PredictionTwice(db: Store.Db, userId: Id, today: Date, keyConfigured: bool,
                         narrate: string -> AuthController.LlmOutcome, now1: Timestamp, now2: Timestamp)
    returns (first: Response, second: Response)
    requires db.Valid()
    modifies db
    ensures db.Valid()
    ensures first.status == 200 ==> second.status == 200
    ensures first.status == 200 && PredictionsOn(old(db.predictions), userId, today) == {} ==> second == first
  {
    ghost var before := db.predictions;
    first := AuthController.Prediction(db, userId, today, keyConfigured, narrate, now1);
    if first.status == 200 && PredictionsOn(before, userId, today) == {} {
      Store.UpsertedIsCached(before, userId, today, first.payload.message, now1);
    }
    second := AuthController.Prediction(db, userId, today, keyConfigured, narrate, now2);
  }

  /** A promotion group is deleted, a new group is created, and a coupon of the deleted
      group is presented: the AUTO_INCREMENT counter never hands the deleted keys out again,
      so the coupon joins no promotion and is refused as unknown. */
  method DeleteThenCreate(db: Store.Db, groupId: int, element: seq<string>, description: Option<string>,
                          discount: real, start: Date, end: Date, code: string, now: Timestamp)
    returns (deleted: Response, created: Response, redeemed: Response)
    requires db.Valid()
    modifies db
    ensures db.Valid()
    ensures (forall id :: id in old(db.coupons) && old(db.coupons)[id].code == code ==>
               old(db.coupons)[id].promotionId in GroupMembers(old(db.promotions), groupId))
            ==> redeemed == Response(400, Message("Invalid or expired coupon"))
  {
    ghost var coupons := db.coupons;
    ghost var counter := db.nextPromotionKey;
    assert PromotionKeysIssued(db.State());
    deleted := RestaurantController.DeletePromotionGroup(db, groupId);
    DeleteGroupEffect(old(db.promotions), groupId);
    ghost var remaining := db.promotions;
    created := RestaurantController.CreatePromotion(db, element, description, discount, start, end);
    assert db.coupons == coupons;
    if forall id :: id in coupons && coupons[id].code == code ==>
         coupons[id].promotionId in GroupMembers(old(db.promotions), groupId) {
      forall id | id in coupons && coupons[id].code == code
        ensures coupons[id].promotionId !in db.promotions
      {
        assert coupons[id].promotionId !in remaining;
        assert coupons[id].promotionId < counter;
      }
      assert CouponsWithCode(db.coupons, db.promotions, code) == {};
    }
    redeemed := AuthController.UseCoupon(db, code, now);
  }
}
