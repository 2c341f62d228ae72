/** The database the handlers talk to: one map per table, changed in place by one
    method per INSERT / UPDATE / DELETE statement of the catalogue. A transaction is a
    private copy of the tables (BEGIN), made the database on COMMIT and dropped on
    ROLLBACK. */
module Store {
  import opened Common
  import opened Tables
  import Queries
  import Ordering

  /** The key AUTO_INCREMENT hands to the next row: one more than the largest key. */
  ghost function NextKey<T>(m: map<Id, T>): (k: Id)
    ensures k !in m
    ensures forall j :: j in m ==> j < k
  {
    Ordering.MaxOr(m.Keys, 0) + 1
  }

  method NewKey<T>(m: map<Id, T>) returns (k: Id)
    ensures k == NextKey(m)
  {
    var top := Ordering.MaxOf(m.Keys, 0);
    k := top + 1;
  }

  /** The rows of a multi-row INSERT, under consecutive keys from `base`. */
  ghost function Block<T>(base: Id, rows: seq<T>): map<Id, T>
    decreases |rows|
  {
    if rows == [] then map[]
    else Block(base, rows[..|rows| - 1])[base + |rows| - 1 := rows[|rows| - 1]]
  }

  /** The block holds exactly the keys base .. base + |rows| - 1, row by row. */
  lemma {:induction false} BlockKeys<T>(base: Id, rows: seq<T>)
    ensures forall k :: k in Block(base, rows) <==> base <= k < base + |rows|
    ensures forall k :: k in Block(base, rows) ==> Block(base, rows)[k] == rows[k - base]
    decreases |rows|
  {
    if rows != [] {
      var front := rows[..|rows| - 1];
      BlockKeys(base, front);
    }
  }

  /** Inserting the block's rows one at a time: the first i + 1 rows are the first i
      with row i added under key base + i. */
  lemma BlockGrows<T>(m: map<Id, T>, base: Id, rows: seq<T>, i: nat)
    requires i < |rows|
    ensures m + Block(base, rows[..i + 1]) == (m + Block(base, rows[..i]))[base + i := rows[i]]
  {
    assert rows[..i + 1][..i] == rows[..i];
  }

  /** A block of n rows adds n keys. */
  lemma {:induction false} BlockSize<T>(base: Id, rows: seq<T>)
    ensures |Block(base, rows).Keys| == |rows|
    decreases |rows|
  {
    if rows != [] {
      var front := rows[..|rows| - 1];
      BlockSize(base, front);
      BlockKeys(base, front);
      assert Block(base, rows).Keys == Block(base, front).Keys + {base + |rows| - 1};
    }
  }

  /** The multi-row promotion insert keeps the database consistent: the new keys start at
      the counter and the counter moves past them, so every key, old or new, lies below it. */
  lemma InsertPromotionsKeepsConsistent(t: Tables, rows: seq<Promotion>)
    requires Consistent(t)
    ensures var base := t.nextPromotionKey;
      Consistent(t.(promotions := t.promotions + Block(base, rows), nextPromotionKey := base + |rows|))
  {
    BlockKeys(t.nextPromotionKey, rows);
  }

  /** The prediction upsert the handlers run: checkPredictionBefor, then updatePrediction
      when the user has any row, insertPrediction otherwise. */
  ghost function Upserted(predictions: map<Id, Prediction>, userId: Id, date: Date, text: string,
                          now: Timestamp): map<Id, Prediction>
  {
    if Queries.HasPrediction(predictions, userId)
    then Queries.RewritePredictions(predictions, userId, text, date, now)
    else predictions[NextKey(predictions) := Prediction(userId, date, text, now, None)]
  }

  /** After the upsert the user's cache lookup for `date` hits, and every row it can
      return carries the new text; other users' rows are untouched. So a second request on
      the same day is answered from the cache with the same text. */
  lemma UpsertedIsCached(predictions: map<Id, Prediction>, userId: Id, date: Date, text: string, now: Timestamp)
    ensures var r := Upserted(predictions, userId, date, text, now);
      && Queries.PredictionsOn(r, userId, date) != {}
      && (forall id :: id in Queries.PredictionsOn(r, userId, date) ==> r[id].text == text)
      && (forall id :: id in predictions && predictions[id].userId != userId ==> id in r && r[id] == predictions[id])
  {
    var r := Upserted(predictions, userId, date, text, now);
    if Queries.HasPrediction(predictions, userId) {
      Queries.RewritePredictionsEffect(predictions, userId, text, date, now);
      var id :| id in predictions && predictions[id].userId == userId;
      assert id in Queries.PredictionsOn(r, userId, date);
    } else {
      assert NextKey(predictions) in Queries.PredictionsOn(r, userId, date);
    }
  }

  class Db {
    var restaurants: map<Id, Restaurant>
    var users: map<Id, User>
    var userElements: map<Id, UserElement>
    var predictions: map<Id, Prediction>
    var menus: map<Id, Menu>
    var promotions: map<Id, Promotion>
    var coupons: map<Id, Coupon>
    var nextPromotionKey: Id

    ghost function State(): Tables
      reads this
    {
      Tables(restaurants, users, userElements, predictions, menus, promotions, coupons, nextPromotionKey)
    }

    ghost predicate Valid()
      reads this
    {
      Consistent(State())
    }

    /** BEGIN: a transaction works on its own copy of every table. */
    constructor Begin(db: Db)
      ensures State() == db.State()
    {
      restaurants, users, userElements := db.restaurants, db.users, db.userElements;
      predictions, menus, promotions, coupons := db.predictions, db.menus, db.promotions, db.coupons;
      nextPromotionKey := db.nextPromotionKey;
    }

    /** COMMIT: the transaction's tables become the database's. */
    method Commit(tx: Db)
      modifies this
      ensures State() == tx.State()
    {
      restaurants, users, userElements := tx.restaurants, tx.users, tx.userElements;
      predictions, menus, promotions, coupons := tx.predictions, tx.menus, tx.promotions, tx.coupons;
      nextPromotionKey := tx.nextPromotionKey;
    }

    /** createNewUser. */
    method InsertUser(u: User) returns (id: Id)
      modifies this
      ensures id == NextKey(old(users))
      ensures State() == old(State()).(users := old(users)[id := u])
    {
      id := NewKey(users);
      users := users[id := u];
    }

    /** insertElement, for a user who has no element profile yet. */
    method InsertElement(userId: Id, e: UserElement)
      modifies this
      ensures State() == old(State()).(userElements := old(userElements)[userId := e])
    {
      userElements := userElements[userId := e];
    }

    /** updateElementAfterEditProfile: `WHERE user_id = ?`. */
    method UpdateElement(userId: Id, main: string, favorable: Option<seq<string>>,
                         unfavorable: Option<seq<string>>, now: Timestamp)
      modifies this
      ensures userId in old(userElements) ==>
        State() == old(State()).(userElements := old(userElements)[userId := old(userElements)[userId].(
          mainElement := main, favorable := favorable, unfavorable := unfavorable, updatedAt := Some(now))])
      ensures userId !in old(userElements) ==> State() == old(State())
    {
      if userId in userElements {
        userElements := userElements[userId := userElements[userId].(
          mainElement := main, favorable := favorable, unfavorable := unfavorable, updatedAt := Some(now))];
      }
    }

    /** editProfile's user update: `WHERE id = ? AND restaurant_id = ?`. */
    method UpdateUser(id: Id, restaurantId: Id, patch: Queries.ProfilePatch)
      modifies this
      ensures id in old(users) && old(users)[id].restaurantId == restaurantId ==>
        State() == old(State()).(users := old(users)[id := Queries.ApplyProfilePatch(old(users)[id], patch)])
      ensures !(id in old(users) && old(users)[id].restaurantId == restaurantId) ==> State() == old(State())
    {
      if id in users && users[id].restaurantId == restaurantId {
        users := users[id := Queries.ApplyProfilePatch(users[id], patch)];
      }
    }

    /** checkPredictionBefor, then updatePrediction or insertPrediction. */
    method SavePrediction(userId: Id, date: Date, text: string, now: Timestamp)
      modifies this
      ensures State() == old(State()).(predictions := Upserted(old(predictions), userId, date, text, now))
    {
      if Queries.HasPrediction(predictions, userId) {
        predictions := Queries.RewritePredictions(predictions, userId, text, date, now);
      } else {
        var id := NewKey(predictions);
        predictions := predictions[id := Prediction(userId, date, text, now, None)];
      }
    }

    /** editRestaurant: `UPDATE restaurants SET ? WHERE id = ?`. Setting an email another
        restaurant already has violates the unique column and changes nothing. */
    method UpdateRestaurant(id: Id, patch: Queries.RestaurantPatch) returns (duplicate: bool)
      modifies this
      ensures duplicate <==>
        && id in old(restaurants) && patch.email.Some?
        && exists other | other in old(restaurants) :: other != id && old(restaurants)[other].email == patch.email.value
      ensures duplicate || id !in old(restaurants) ==> State() == old(State())
      ensures !duplicate && id in old(restaurants) ==>
        State() == old(State()).(restaurants :=
          old(restaurants)[id := Queries.ApplyRestaurantPatch(old(restaurants)[id], patch)])
    {
      duplicate := id in restaurants && patch.email.Some?
        && exists other | other in restaurants :: other != id && restaurants[other].email == patch.email.value;
      if !duplicate && id in restaurants {
        restaurants := restaurants[id := Queries.ApplyRestaurantPatch(restaurants[id], patch)];
      }
    }

    /** addNewMenu: `INSERT INTO menu SET ?`; the foreign key on restaurant_id refuses a
        row for an unknown restaurant. */
    method InsertMenu(m: Menu) returns (inserted: bool)
      modifies this
      ensures inserted <==> m.restaurantId in old(restaurants)
      ensures inserted ==> State() == old(State()).(menus := old(menus)[NextKey(old(menus)) := m])
      ensures !inserted ==> State() == old(State())
    {
      inserted := m.restaurantId in restaurants;
      if inserted {
        var id := NewKey(menus);
        menus := menus[id := m];
      }
    }

    /** editMenu: `UPDATE menu SET ? WHERE id = ?`; returns the rows matched. */
    method UpdateMenu(id: Id, patch: Queries.MenuPatch) returns (affected: nat)
      modifies this
      ensures affected == (if id in old(menus) then 1 else 0)
      ensures id in old(menus) ==>
        State() == old(State()).(menus := old(menus)[id := Queries.ApplyMenuPatch(old(menus)[id], patch)])
      ensures id !in old(menus) ==> State() == old(State())
    {
      if id in menus {
        menus := menus[id := Queries.ApplyMenuPatch(menus[id], patch)];
        affected := 1;
      } else {
        affected := 0;
      }
    }

    /** createPromotion: one multi-row `INSERT ... VALUES ?`, the rows under consecutive
        keys from the AUTO_INCREMENT counter, which then moves past them. */
    method InsertPromotions(rows: seq<Promotion>) returns (base: Id)
      modifies this
      ensures base == old(nextPromotionKey)
      ensures State() == old(State()).(promotions := old(promotions) + Block(base, rows),
                                       nextPromotionKey := base + |rows|)
      ensures old(Valid()) ==> Valid()
      ensures forall k :: k in promotions && k !in old(promotions) ==> base <= k
    {
      base := nextPromotionKey;
      if Valid() {
        InsertPromotionsKeepsConsistent(State(), rows);
      }
      BlockKeys(base, rows);
      var i := 0;
      while i < |rows|
        invariant 0 <= i <= |rows|
        invariant promotions == old(promotions) + Block(base, rows[..i])
        invariant State() == old(State()).(promotions := promotions)
      {
        BlockGrows(old(promotions), base, rows, i);
        promotions := promotions[base + i := rows[i]];
        i := i + 1;
      }
      assert rows[..i] == rows;
      nextPromotionKey := base + |rows|;
    }

    /** updatePromotionGroup; returns the rows matched. */
    method UpdatePromotionGroup(groupId: int, start: Option<Date>, end: Option<Date>, status: Option<string>,
                                now: Timestamp) returns (affected: nat)
      modifies this
      ensures affected == |Queries.GroupMembers(old(promotions), groupId)|
      ensures State() == old(State()).(promotions :=
        Queries.UpdateGroup(old(promotions), groupId, start, end, status, now))
    {
      affected := |Queries.GroupMembers(promotions, groupId)|;
      promotions := Queries.UpdateGroup(promotions, groupId, start, end, status, now);
    }

    /** deletePromotionGroup; returns the rows deleted. */
    method DeletePromotionGroup(groupId: int) returns (affected: nat)
      modifies this
      ensures affected == |Queries.GroupMembers(old(promotions), groupId)|
      ensures State() == old(State()).(promotions := Queries.DeleteGroup(old(promotions), groupId))
    {
      affected := |Queries.GroupMembers(promotions, groupId)|;
      promotions := Queries.DeleteGroup(promotions, groupId);
    }

    /** addCoupon: `VALUES (?, ?, ?, 'UNUSED', NOW())`. The unique constraints on the code
        and on (user_id, promotion_id) refuse a second row for either. */
    method InsertCoupon(userId: Id, promotionId: Id, code: string, now: Timestamp) returns (inserted: bool)
      modifies this
      ensures inserted <==>
        && (forall id :: id in old(coupons) ==> old(coupons)[id].code != code)
        && (forall id :: id in old(coupons) ==>
              !(old(coupons)[id].userId == userId && old(coupons)[id].promotionId == promotionId))
      ensures inserted ==> State() == old(State()).(coupons :=
        old(coupons)[NextKey(old(coupons)) := Coupon(userId, promotionId, code, UNUSED, now, None)])
      ensures !inserted ==> State() == old(State())
    {
      inserted := !(exists id | id in coupons :: coupons[id].code == code)
        && !(exists id | id in coupons :: coupons[id].userId == userId && coupons[id].promotionId == promotionId);
      if inserted {
        var id := NewKey(coupons);
        coupons := coupons[id := Coupon(userId, promotionId, code, UNUSED, now, None)];
      }
    }

    /** useCoupon: `SET status = 'USED', used_at = NOW() WHERE id = ?`. */
    method MarkCouponUsed(id: Id, now: Timestamp)
      modifies this
      ensures State() == old(State()).(coupons := Queries.MarkUsed(old(coupons), id, now))
    {
      coupons := Queries.MarkUsed(coupons, id, now);
    }
  }
}
