/** controllers/restaurant.js: the operator's handlers. Each takes the request fields,
    runs its statements against the database and answers with a status and a body;
    password hashing and checking are parameters. */
module RestaurantController {
  import opened Common
  import opened Tables
  import opened Queries
  import opened Http
  import Ordering
  import Store
  import Validation

  const PAGE_SIZE: nat := 10

  // ---------------------------------------------------------------- login

  /** login: the restaurant with that email, if the password matches its hash. Under the
      unique-email rule the answer is 200 exactly when such a restaurant exists, and an
      unknown email and a wrong password get the same 401 answer. */
  method Login(db: Store.Db, email: string, password: string, compare: (string, string) -> bool)
    returns (resp: Response)
    requires db.Valid()
    ensures resp.status == 200 || resp == Response(401, Message("Invalid email or password"))
    ensures resp.status == 200 <==>
      exists id :: id in db.restaurants && db.restaurants[id].email == email
                   && compare(password, db.restaurants[id].password)
    ensures resp.status == 200 ==>
      && resp.payload.RestaurantSession?
      && resp.payload.restaurantId in db.restaurants
      && db.restaurants[resp.payload.restaurantId] == Restaurant(resp.payload.name, email, db.restaurants[resp.payload.restaurantId].password)
      && resp.payload.email == email
  {
    var found := RestaurantsWithEmail(db.restaurants, email);
    assert forall id :: id in db.restaurants && db.restaurants[id].email == email ==> id in found;
    if found == {} {
      return Response(401, Message("Invalid email or password"));
    }
    var id := Ordering.Pick(found);
    var row := db.restaurants[id];
    if !compare(password, row.password) {
      assert forall other :: other in db.restaurants && db.restaurants[other].email == email ==> other == id;
      return Response(401, Message("Invalid email or password"));
    }
    resp := Response(200, RestaurantSession(id, row.name, row.email));
  }

  // ---------------------------------------------------------------- editRestaurant

  /** The update object: name and email when truthy, the hashed password when a truthy
      password is given. */
  function RestaurantUpdate(name: Option<string>, email: Option<string>, password: Option<string>,
                            hash: string -> string): (p: RestaurantPatch)
    ensures p.name.Some? <==> Truthy(name)
    ensures p.email.Some? <==> Truthy(email)
    ensures p.password.Some? <==> Truthy(password)
    ensures p.name.Some? ==> p.name == name
    ensures p.email.Some? ==> p.email == email
    ensures p.password.Some? ==> p.password == Some(hash(password.value))
  {
    RestaurantPatch(OrNull(name), OrNull(email), if Truthy(password) then Some(hash(password.value)) else None)
  }

  /** editRestaurant: 400 without a restaurant id or without any truthy field; 409 when the
      new email belongs to another restaurant; otherwise 200, with the row (if there is
      one) updated by exactly the supplied fields. */
  method EditRestaurant(db: Store.Db, restaurantId: Option<int>, name: Option<string>, email: Option<string>,
                        password: Option<string>, hash: string -> string)
    returns (resp: Response)
    requires db.Valid()
    modifies db
    ensures db.Valid()
    ensures !TruthyId(restaurantId) ==>
      resp == Response(400, Message("restaurant_id is required")) && db.State() == old(db.State())
    ensures TruthyId(restaurantId) && !Truthy(name) && !Truthy(email) && !Truthy(password) ==>
      resp == Response(400, Message("No data to update")) && db.State() == old(db.State())
    ensures resp.status == 409 ==> resp.payload == Message("Email already exists") && db.State() == old(db.State())
    ensures resp.status == 409 <==>
      && TruthyId(restaurantId) && restaurantId.value in old(db.restaurants) && Truthy(email)
      && exists other :: other in old(db.restaurants) && other != restaurantId.value
                         && old(db.restaurants)[other].email == email.value
    ensures resp.status == 200 <==>
      && TruthyId(restaurantId) && (Truthy(name) || Truthy(email) || Truthy(password))
      && !(&& restaurantId.value in old(db.restaurants) && Truthy(email)
           && exists other :: other in old(db.restaurants) && other != restaurantId.value
                              && old(db.restaurants)[other].email == email.value)
    ensures resp.status == 200 ==>
      && resp.payload == Message("Restaurant updated successfully")
      && var id := restaurantId.value;
         db.State() == old(db.State()).(restaurants :=
           if id in old(db.restaurants)
           then old(db.restaurants)[id := ApplyRestaurantPatch(old(db.restaurants)[id],
                                                               RestaurantUpdate(name, email, password, hash))]
           else old(db.restaurants))
    ensures resp.status in {200, 400, 409}
  {
    if !TruthyId(restaurantId) {
      return Response(400, Message("restaurant_id is required"));
    }
    var update := RestaurantPatch(None, None, None);
    if Truthy(name) {
      update := update.(name := name);
    }
    if Truthy(email) {
      update := update.(email := email);
    }
    if Truthy(password) {
      var hashed := hash(password.value);
      update := update.(password := Some(hashed));
    }
    assert update == RestaurantUpdate(name, email, password, hash);
    if update == RestaurantPatch(None, None, None) {
      return Response(400, Message("No data to update"));
    }
    ghost var before := db.restaurants;
    var duplicate := db.UpdateRestaurant(restaurantId.value, update);
    if duplicate {
      return Response(409, Message("Email already exists"));
    }
    EmailsStayUnique(before, restaurantId.value, update);
    resp := Response(200, Message("Restaurant updated successfully"));
  }

  /** An update whose email no other restaurant has keeps the emails unique. */
  lemma EmailsStayUnique(rs: map<Id, Restaurant>, id: Id, p: RestaurantPatch)
    requires UniqueEmails(rs)
    requires id in rs ==> !(p.email.Some? && exists other :: other in rs && other != id && rs[other].email == p.email.value)
    ensures id in rs ==> UniqueEmails(rs[id := ApplyRestaurantPatch(rs[id], p)])
  {
  }

  // ---------------------------------------------------------------- menu

  /** The rows of a listing payload. */
  function Listed(p: Payload): seq<MenuRow> {
    if p.MenuList? then p.menu else []
  }

  /** getMenu's result before LIMIT/OFFSET: the restaurant's menus, newest first. */
  ghost predicate MenuOrder(rows: seq<MenuRow>, menus: map<Id, Menu>, restaurantId: Id) {
    multiset(rows) == multiset(RestaurantMenus(menus, restaurantId))
    && Ordering.SortedDesc(rows, (r: MenuRow) => r.menu.createdAt as int)
  }

  /** menu: page `page` of the restaurant's menus, newest first, ten per page from offset
      (page - 1) * 10; an empty page is answered "No menus found"; a page below 1 gives a
      negative OFFSET, which the database refuses (500). */
  method MenuPage(db: Store.Db, restaurantId: Id, page: int) returns (resp: Response)
    ensures page < 1 <==> resp.status == 500
    ensures page < 1 ==> resp == Response(500, Message("Server error"))
    ensures page >= 1 ==>
      && resp.status == 200
      && (resp.payload.NoMenus? || resp.payload.MenuList?)
      && (resp.payload.MenuList? ==> resp.payload.menu != [])
      && exists all :: MenuOrder(all, db.menus, restaurantId)
                       && Listed(resp.payload) == Ordering.Page(all, (page - 1) * PAGE_SIZE, PAGE_SIZE)
  {
    var limit := PAGE_SIZE;
    var offset := (page - 1) * limit;
    if offset < 0 {
      return Response(500, Message("Server error"));
    }
    var all := Ordering.OrderByDesc(RestaurantMenus(db.menus, restaurantId), (r: MenuRow) => r.menu.createdAt as int);
    var rows := Ordering.Page(all, offset, limit);
    if rows == [] {
      resp := Response(200, NoMenus);
    } else {
      resp := Response(200, MenuList(rows));
    }
    assert MenuOrder(all, db.menus, restaurantId);
  }

  /** The menu route: the rules `restaurant_id` and `page` are integers of at least 1
      (in that order), then the handler. A request the rules accept never reaches the
      negative OFFSET: it is answered 200 with the page starting at (page - 1) * 10. */
  method MenuRoute(db: Store.Db, restaurantIdText: string, pageText: string) returns (resp: Response)
    ensures resp.status in {200, 400}
    ensures resp.status == 400 <==>
      !Validation.IsIntAtLeast(restaurantIdText, 1) || !Validation.IsIntAtLeast(pageText, 1)
    ensures resp.status == 400 ==>
      && resp.payload.ValidationFailed?
      && (Http.FieldError("restaurant_id", "Invalid value") in resp.payload.errors
          <==> !Validation.IsIntAtLeast(restaurantIdText, 1))
      && (Http.FieldError("page", "Page must be a positive integer") in resp.payload.errors
          <==> !Validation.IsIntAtLeast(pageText, 1))
    ensures resp.status == 200 ==>
      && Validation.IsIntAtLeast(pageText, 1)
      && exists all :: MenuOrder(all, db.menus, Validation.SignedValue(restaurantIdText))
                       && Listed(resp.payload)
                          == Ordering.Page(all, (Validation.SignedValue(pageText) - 1) * PAGE_SIZE, PAGE_SIZE)
  {
    var errors: seq<Validation.ValidationError> := [];
    ghost var listed: seq<Http.FieldError> := [];
    if !Validation.IsIntAtLeast(restaurantIdText, 1) {
      errors := errors + [Validation.ValidationError("restaurant_id", "Invalid value")];
      listed := listed + [Http.FieldError("restaurant_id", "Invalid value")];
    }
    if !Validation.IsIntAtLeast(pageText, 1) {
      errors := errors + [Validation.ValidationError("page", "Page must be a positive integer")];
      listed := listed + [Http.FieldError("page", "Page must be a positive integer")];
    }
    var rejected := Validation.Validate(errors);
    if rejected.Some? {
      assert rejected.value.payload.errors == listed;
      return rejected.value;
    }
    resp := MenuPage(db, Validation.SignedValue(restaurantIdText), Validation.SignedValue(pageText));
  }

  // ---------------------------------------------------------------- addNewMenu

  /** addNewMenu's row: element and image_url NULL when absent (or falsy), status
      AVAILABLE unless a truthy status is given. */
  function NewMenu(restaurantId: Id, name: string, price: real, element: Option<seq<string>>,
                   imageUrl: Option<string>, status: Option<string>, now: Timestamp): (m: Menu)
    ensures m.restaurantId == restaurantId && m.name == name && m.price == price
    ensures m.element == element
    ensures m.imageUrl.None? <==> !Truthy(imageUrl)
    ensures Truthy(imageUrl) ==> m.imageUrl == imageUrl
    ensures !Truthy(status) ==> m.status == AVAILABLE
    ensures Truthy(status) ==> m.status == status.value
    ensures m.createdAt == now
  {
    Menu(restaurantId, name, price, element, OrNull(imageUrl), OrElse(status, AVAILABLE), now)
  }

  /** addNewMenu: 201 with the row added under a fresh key, or 404 when the restaurant
      does not exist (the foreign key refuses the row) with nothing changed. */
  method AddNewMenu(db: Store.Db, restaurantId: Id, name: string, price: real, element: Option<seq<string>>,
                    imageUrl: Option<string>, status: Option<string>, now: Timestamp)
    returns (resp: Response)
    requires db.Valid()
    modifies db
    ensures db.Valid()
    ensures resp.status == 201 <==> restaurantId in old(db.restaurants)
    ensures resp.status == 201 ==>
      && resp.payload == Message("Menu created successfully")
      && db.State() == old(db.State()).(menus := old(db.menus)[Store.NextKey(old(db.menus)) :=
           NewMenu(restaurantId, name, price, element, imageUrl, status, now)])
    ensures resp.status != 201 ==>
      resp == Response(404, Message("Restaurant not found")) && db.State() == old(db.State())
  {
    var addNew := NewMenu(restaurantId, name, price, element, imageUrl, status, now);
    var inserted := db.InsertMenu(addNew);
    if !inserted {
      return Response(404, Message("Restaurant not found"));
    }
    resp := Response(201, Message("Menu created successfully"));
  }

  // ---------------------------------------------------------------- editMenu

  /** editMenu's update object: price whenever it is given (0 included), every other
      field only when truthy (an element array is always truthy). */
  function MenuUpdate(name: Option<string>, price: Option<real>, element: Option<seq<string>>,
                      imageUrl: Option<string>, status: Option<string>): (p: MenuPatch)
    ensures p.price == price && p.element == element
    ensures p.name.Some? <==> Truthy(name)
    ensures p.imageUrl.Some? <==> Truthy(imageUrl)
    ensures p.status.Some? <==> Truthy(status)
    ensures p.name.Some? ==> p.name == name
    ensures p.imageUrl.Some? ==> p.imageUrl == imageUrl
    ensures p.status.Some? ==> p.status == status
    ensures IsEmptyMenuPatch(p) <==> !Truthy(name) && price.None? && element.None? && !Truthy(imageUrl) && !Truthy(status)
  {
    MenuPatch(OrNull(name), price, element, OrNull(imageUrl), OrNull(status))
  }

  /** editMenu: 400 without a menu id or with nothing to update, 404 when no such menu,
      otherwise 200 with exactly that menu's supplied columns changed. */
  method EditMenu(db: Store.Db, menuId: Option<int>, name: Option<string>, price: Option<real>,
                  element: Option<seq<string>>, imageUrl: Option<string>, status: Option<string>)
    returns (resp: Response)
    requires db.Valid()
    modifies db
    ensures db.Valid()
    ensures !TruthyId(menuId) ==>
      resp == Response(400, Message("menuid is required")) && db.State() == old(db.State())
    ensures TruthyId(menuId) && IsEmptyMenuPatch(MenuUpdate(name, price, element, imageUrl, status)) ==>
      resp == Response(400, Message("No data to update")) && db.State() == old(db.State())
    ensures TruthyId(menuId) && !IsEmptyMenuPatch(MenuUpdate(name, price, element, imageUrl, status)) ==>
      if menuId.value in old(db.menus) then
        && resp == Response(200, Message("Menu updated successfully"))
        && db.State() == old(db.State()).(menus := old(db.menus)[menuId.value :=
             ApplyMenuPatch(old(db.menus)[menuId.value], MenuUpdate(name, price, element, imageUrl, status))])
      else
        resp == Response(404, Message("Menu not found")) && db.State() == old(db.State())
  {
    if !TruthyId(menuId) {
      return Response(400, Message("menuid is required"));
    }
    var update := MenuPatch(None, None, None, None, None);
    if Truthy(name) {
      update := update.(name := name);
    }
    if price.Some? {
      update := update.(price := price);
    }
    if element.Some? {
      update := update.(element := element);
    }
    if Truthy(imageUrl) {
      update := update.(imageUrl := imageUrl);
    }
    if Truthy(status) {
      update := update.(status := status);
    }
    assert update == MenuUpdate(name, price, element, imageUrl, status);
    if IsEmptyMenuPatch(update) {
      return Response(400, Message("No data to update"));
    }
    var affected := db.UpdateMenu(menuId.value, update);
    if affected == 0 {
      return Response(404, Message("Menu not found"));
    }
    resp := Response(200, Message("Menu updated successfully"));
  }

  // ---------------------------------------------------------------- createPromotion

  /** `menus.map(...)`: one row per matched menu, all in group `g`, status AVAILABLE. */
  function PromotionRows(menuIds: seq<Id>, g: int, description: Option<string>, discount: real,
                         start: Date, end: Date): (rows: seq<Promotion>)
    ensures |rows| == |menuIds|
    ensures forall i :: 0 <= i < |rows| ==>
              rows[i] == Promotion(g, menuIds[i], OrNull(description), discount, start, end, AVAILABLE, None)
  {
    seq(|menuIds|, i requires 0 <= i < |menuIds| =>
      Promotion(g, menuIds[i], OrNull(description), discount, start, end, AVAILABLE, None))
  }

  /** The rows a call added to the promotions table. */
  ghost function Added(before: map<Id, Promotion>, after: map<Id, Promotion>): set<Id> {
    after.Keys - before.Keys
  }

  /** The menu ids of some promotion rows. */
  ghost function MenuIdsOf(rows: map<Id, Promotion>, keys: set<Id>): set<Id> {
    set id | id in keys && id in rows :: rows[id].menuId
  }

  /** What a successful createPromotion does to the promotions table: every old row stays
      as it was, and the new rows are one per matched menu, all in group `g`, AVAILABLE,
      with the given description (NULL when falsy), discount and dates. */
  ghost predicate AddsGroup(before: map<Id, Promotion>, after: map<Id, Promotion>, g: int, matched: set<Id>,
                            description: Option<string>, discount: real, start: Date, end: Date)
  {
    && (forall id :: id in before ==> id in after && after[id] == before[id])
    && |Added(before, after)| == |matched|
    && MenuIdsOf(after, Added(before, after)) == matched
    && (forall id :: id in Added(before, after) ==>
          after[id] == Promotion(g, after[id].menuId, OrNull(description), discount, start, end, AVAILABLE, None))
  }

  /** createPromotion: 404 with nothing added when no AVAILABLE menu (of any restaurant)
      holds every requested element; otherwise one transaction adds one row per matched
      menu, all in a new group whose id is above every existing group id, and reports
      that group and the number matched. */
  method CreatePromotion(db: Store.Db, element: seq<string>, description: Option<string>, discount: real,
                         start: Date, end: Date)
    returns (resp: Response)
    requires db.Valid()
    modifies db
    ensures db.Valid()
    ensures resp.status == 404 <==> MenusMatchingAll(old(db.menus), element) == {}
    ensures resp.status == 404 ==>
      resp.payload == Message("No menus match the specified elements") && db.State() == old(db.State())
    ensures resp.status != 404 ==>
      && resp.status == 201
      && resp.payload.PromotionCreated?
      && resp.payload.groupId == NextGroupId(old(db.promotions))
      && resp.payload.menuCount == |MenusMatchingAll(old(db.menus), element)|
      && db.State() == old(db.State()).(promotions := db.promotions, nextPromotionKey := db.nextPromotionKey)
      && db.nextPromotionKey == old(db.nextPromotionKey) + resp.payload.menuCount
      && AddsGroup(old(db.promotions), db.promotions, resp.payload.groupId, MenusMatchingAll(old(db.menus), element),
                   description, discount, start, end)
    ensures forall k :: k in db.promotions && k !in old(db.promotions) ==> old(db.nextPromotionKey) <= k
  {
    var tx := new Store.Db.Begin(db);
    var matched := MenusMatchingAll(tx.menus, element);
    if matched == {} {
      return Response(404, Message("No menus match the specified elements"));
    }
    var top := Ordering.MaxOf(GroupIds(tx.promotions), 0);
    var g := top + 1;
    assert g == NextGroupId(tx.promotions);
    var menuIds := Ordering.ListOf(matched);
    assert |menuIds| == |multiset(matched)| == |matched|;
    var values := PromotionRows(menuIds, g, description, discount, start, end);
    ghost var before := tx.promotions;
    assert tx.Valid();
    var base := tx.InsertPromotions(values);
    assert tx.Valid();
    db.Commit(tx);
    assert db.Valid();
    NewRowsMatch(before, base, menuIds, matched, g, description, discount, start, end);
    assert before == old(db.promotions) && base == old(db.nextPromotionKey);
    assert db.promotions == before + Store.Block(base, values);
    resp := Response(201, PromotionCreated(g, |menuIds|));
  }

  /** The block the insert added holds one row per listed menu. */
  lemma NewRowsMatch(before: map<Id, Promotion>, base: Id, menuIds: seq<Id>, matched: set<Id>,
                     g: int, description: Option<string>, discount: real, start: Date, end: Date)
    requires forall k :: k in before ==> k < base
    requires multiset(menuIds) == multiset(matched)
    ensures AddsGroup(before, before + Store.Block(base, PromotionRows(menuIds, g, description, discount, start, end)),
                      g, matched, description, discount, start, end)
  {
    var values := PromotionRows(menuIds, g, description, discount, start, end);
    var block := Store.Block(base, values);
    var after := before + block;
    Store.BlockKeys(base, values);
    Store.BlockSize(base, values);
    assert forall k :: k in block ==> k !in before;
    assert Added(before, after) == block.Keys;
    assert |menuIds| == |multiset(matched)| == |matched|;
    BlockMenuIds(after, block, base, menuIds, matched, values);
    forall id | id in Added(before, after)
      ensures after[id] == Promotion(g, after[id].menuId, OrNull(description), discount, start, end, AVAILABLE, None)
    {
      assert after[id] == values[id - base];
    }
  }

  lemma BlockMenuIds(after: map<Id, Promotion>, block: map<Id, Promotion>, base: Id, menuIds: seq<Id>,
                     matched: set<Id>, values: seq<Promotion>)
    requires multiset(menuIds) == multiset(matched)
    requires |values| == |menuIds| && forall i :: 0 <= i < |values| ==> values[i].menuId == menuIds[i]
    requires forall k :: k in block <==> base <= k < base + |values|
    requires forall k :: k in block ==> k in after && after[k] == values[k - base]
    ensures MenuIdsOf(after, block.Keys) == matched
  {
    forall m | m in matched ensures m in MenuIdsOf(after, block.Keys) {
      assert m in multiset(menuIds);
      var i :| 0 <= i < |menuIds| && menuIds[i] == m;
      assert base + i in block;
    }
    forall id | id in block ensures after[id].menuId in matched {
      assert menuIds[id - base] in multiset(menuIds);
    }
  }

  // ---------------------------------------------------------------- promotion groups

  /** getPromotionGroup: 404 exactly when the group has no row; otherwise one of its
      summary rows. */
  method GetPromotionGroup(db: Store.Db, groupId: int) returns (resp: Response)
    ensures resp.status == 404 <==> GroupMembers(db.promotions, groupId) == {}
    ensures resp.status == 404 ==> resp.payload == Message("Promotion group not found")
    ensures resp.status != 404 ==>
      && resp.status == 200 && resp.payload.PromotionGroup?
      && resp.payload.summary in GroupSummaries(db.promotions, groupId)
  {
    var rows := GroupSummaries(db.promotions, groupId);
    GroupSummariesNonEmpty(db.promotions, groupId);
    if rows == {} {
      return Response(404, Message("Promotion group not found"));
    }
    var row := Ordering.Pick(rows);
    resp := Response(200, PromotionGroup(row));
  }

  /** updatePromotionGroup: the group's rows take each truthy supplied value and keep the
      rest; 404 when the group has no row. */
  method UpdatePromotionGroup(db: Store.Db, groupId: int, start: Option<Date>, end: Option<Date>,
                              status: Option<string>, now: Timestamp)
    returns (resp: Response)
    requires db.Valid()
    modifies db
    ensures db.Valid()
    ensures db.State() == old(db.State()).(promotions :=
      UpdateGroup(old(db.promotions), groupId, OrNull(start), OrNull(end), OrNull(status), now))
    ensures resp.status == 404 <==> GroupMembers(old(db.promotions), groupId) == {}
    ensures resp.status == 404 ==> resp.payload == Message("Promotion group not found")
    ensures resp.status != 404 ==> resp == Response(200, Message("Promotion group updated successfully"))
  {
    var affected := db.UpdatePromotionGroup(groupId, OrNull(start), OrNull(end), OrNull(status), now);
    if affected == 0 {
      return Response(404, Message("Promotion group not found"));
    }
    resp := Response(200, Message("Promotion group updated successfully"));
  }

  /** deletePromotionGroup: exactly the group's rows go; 404 when there were none. */
  method DeletePromotionGroup(db: Store.Db, groupId: int) returns (resp: Response)
    requires db.Valid()
    modifies db
    ensures db.Valid()
    ensures db.State() == old(db.State()).(promotions := DeleteGroup(old(db.promotions), groupId))
    ensures resp.status == 404 <==> GroupMembers(old(db.promotions), groupId) == {}
    ensures resp.status == 404 ==> resp.payload == Message("Promotion group not found")
    ensures resp.status != 404 ==> resp == Response(200, Message("Promotion group deleted successfully"))
  {
    var affected := db.DeletePromotionGroup(groupId);
    if affected == 0 {
      return Response(404, Message("Promotion group not found"));
    }
    resp := Response(200, Message("Promotion group deleted successfully"));
  }

  // ---------------------------------------------------------------- restaurantUser

  /** restaurantUser: 404 when the restaurant has no user; otherwise its users, newest
      first, with the element counts of every profile in the database, largest first. */
  method RestaurantUser(db: Store.Db, restaurantId: Id) returns (resp: Response)
    ensures resp.status == 404 <==> RestaurantUsers(db.users, db.userElements, restaurantId) == {}
    ensures resp.status == 404 ==> resp.payload == Message("No users found in restaurant")
    ensures resp.status != 404 ==>
      && resp.status == 200 && resp.payload.RestaurantMembers?
      && multiset(resp.payload.users) == multiset(RestaurantUsers(db.users, db.userElements, restaurantId))
      && Ordering.SortedDesc(resp.payload.users, (u: UserListing) => u.createdAt as int)
      && multiset(resp.payload.elements) == multiset(ElementCounts(db.userElements))
      && Ordering.SortedDesc(resp.payload.elements, (c: ElementCount) => c.count as int)
  {
    var users := RestaurantUsers(db.users, db.userElements, restaurantId);
    if users == {} {
      return Response(404, Message("No users found in restaurant"));
    }
    var userRows := Ordering.OrderByDesc(users, (u: UserListing) => u.createdAt as int);
    var elementRows := Ordering.OrderByDesc(ElementCounts(db.userElements), (c: ElementCount) => c.count as int);
    resp := Response(200, RestaurantMembers(elementRows, userRows));
  }
}
