/** controllers/auth.js: the LINE user's handlers. The chart service, the language
    model, the clock and the random coupon code are parameters; a transaction is a
    copy of the database that is committed or dropped. */
module AuthController {
  import opened Common
  import opened Tables
  import opened Queries
  import opened Http
  import Ordering
  import Store
  import Validation

  /** The five elements a chart may name as the main element. */
  const VALID_ELEMENTS: seq<string> := ["ดิน", "น้ำ", "ไฟ", "ทอง", "ไม้"]

  /** The text sent back when the model's answer has neither content nor text. */
  const FALLBACK: string := "ขอโทษ ไม่สามารถให้คำทำนายได้ในขณะนี้"

  /** `element && VALID_ELEMENTS.includes(element)`. */
  predicate IsValidElement(e: Option<string>) {
    Truthy(e) && e.value in VALID_ELEMENTS
  }

  // ---------------------------------------------------------------- the chart service

  /** The body posted to the chart service; a field that `Number` turns into NaN, or
      that the split does not produce, is `None`. */
  datatype ChartRequest = ChartRequest(
    name: string, day: Option<int>, month: Option<int>, year: Option<int>,
    hour: Option<int>, minute: Option<int>, place: string)

  /** `data.summary`: the day master's Thai element and the two element lists. */
  datatype ChartSummary = ChartSummary(
    mainElement: Option<string>, favorable: Option<seq<string>>, unfavorable: Option<seq<string>>)

  /** How the call ended: it threw (network error, timeout, non-2xx), or it answered,
      with or without a summary. */
  datatype ChartOutcome = ChartFail | ChartOk(summary: Option<ChartSummary>)

  /** `parts[i]` through `Number`, or nothing when the split gave fewer parts. */
  function PartAt(parts: seq<string>, i: nat): Option<int> {
    if i < |parts| then NumberOf(parts[i]) else None
  }

  /** `birth_date.split("-").map(Number)` and `birth_time.split(":").map(Number)`. */
  function ChartRequestFor(name: string, birthDate: string, birthTime: string, place: string): ChartRequest {
    var date := SplitOn(birthDate, '-');
    var time := SplitOn(birthTime, ':');
    ChartRequest(name, PartAt(date, 2), PartAt(date, 1), PartAt(date, 0), PartAt(time, 0), PartAt(time, 1), place)
  }

  /** A "YYYY-MM-DD" text (its shape; calendar validity is not modelled). */
  predicate DateShape(d: string) {
    |d| == 10 && d[4] == '-' && d[7] == '-' && AllDigits(d[..4]) && AllDigits(d[5..7]) && AllDigits(d[8..])
  }

  lemma TwoDigitValue(s: string)
    requires |s| == 2 && AllDigits(s)
    ensures DigitsValue(s) == (s[0] as int - '0' as int) * 10 + (s[1] as int - '0' as int)
  {
    assert s[..1][..0] == [];
    assert DigitsValue(s[..1]) == s[0] as int - '0' as int;
  }

  /** A birth time the rule accepts reaches the chart service as an hour 0..23 and a
      minute 0..59, the very numbers the text spells. */
  lemma BirthTimeReachesChart(name: string, birthDate: string, birthTime: string, place: string)
    requires Validation.IsBirthTime(birthTime)
    ensures var r := ChartRequestFor(name, birthDate, birthTime, place);
      && r.hour.Some? && 0 <= r.hour.value < 24
      && r.minute.Some? && 0 <= r.minute.value < 60
      && birthTime == Validation.TwoDigits(r.hour.value) + ":" + Validation.TwoDigits(r.minute.value)
  {
    var hh, mm := birthTime[..2], birthTime[3..];
    assert birthTime == hh + [':'] + mm;
    assert ':' !in hh && ':' !in mm by {
      assert hh == [birthTime[0], birthTime[1]] && mm == [birthTime[3], birthTime[4]];
    }
    SplitOnPrefix(hh, ':', mm);
    SplitOnNone(mm, ':');
    TwoDigitValue(hh);
    TwoDigitValue(mm);
  }

  /** A "YYYY-MM-DD" birth date reaches the chart service as its year, month and day. */
  lemma BirthDateReachesChart(name: string, birthDate: string, birthTime: string, place: string)
    requires DateShape(birthDate)
    ensures var r := ChartRequestFor(name, birthDate, birthTime, place);
      && r.year == Some(DigitsValue(birthDate[..4]))
      && r.month == Some(DigitsValue(birthDate[5..7]))
      && r.day == Some(DigitsValue(birthDate[8..]))
  {
    var y, m, d := birthDate[..4], birthDate[5..7], birthDate[8..];
    assert birthDate == y + ['-'] + (m + ['-'] + d);
    assert '-' !in y && '-' !in m && '-' !in d by {
      assert forall i :: 0 <= i < |y| ==> IsDigit(y[i]);
      assert forall i :: 0 <= i < |m| ==> IsDigit(m[i]);
      assert forall i :: 0 <= i < |d| ==> IsDigit(d[i]);
    }
    SplitOnPrefix(y, '-', m + ['-'] + d);
    SplitOnPrefix(m, '-', d);
    SplitOnNone(d, '-');
  }

  // ---------------------------------------------------------------- the language model

  /** `choices[0]` of the completion: its `message.content` and its `text`. */
  datatype Choice = Choice(content: Option<string>, text: Option<string>)

  /** The completion call threw, or answered with or without a first choice. */
  datatype LlmOutcome = LlmFail | LlmOk(choice: Option<Choice>)

  /** `content || text || FALLBACK`: never empty. */
  function Recommendation(choice: Option<Choice>): (r: string)
    ensures r != []
    ensures choice.Some? && Truthy(choice.value.content) ==> r == choice.value.content.value
    ensures choice.Some? && !Truthy(choice.value.content) && Truthy(choice.value.text) ==> r == choice.value.text.value
    ensures (choice.None? || (!Truthy(choice.value.content) && !Truthy(choice.value.text))) ==> r == FALLBACK
  {
    if choice.Some? && Truthy(choice.value.content) then choice.value.content.value
    else if choice.Some? && Truthy(choice.value.text) then choice.value.text.value
    else FALLBACK
  }

  /** A call that finished by returning a value or by throwing. */
  datatype Completion<T> = Returned(value: T) | Threw

  // ---------------------------------------------------------------- lineUIDCheck

  /** lineUIDCheck: 404 for an unknown restaurant, 404 "Register" for a LINE user not yet
      registered there, otherwise the member -- the user holding both the LINE id and the
      restaurant -- with its element profile (NULL when it has none). */
  method LineUidCheck(db: Store.Db, lineUid: string, restaurantId: Id) returns (resp: Response)
    ensures restaurantId !in db.restaurants <==> resp == Response(404, Message("Restaurant not found"))
    ensures resp.payload.RegisterPrompt? <==>
      restaurantId in db.restaurants && MatchingUsers(db.users, lineUid, restaurantId) == {}
    ensures resp.payload.RegisterPrompt? ==> resp.status == 404
    ensures resp.status == 200 <==>
      restaurantId in db.restaurants && MatchingUsers(db.users, lineUid, restaurantId) != {}
    ensures resp.status == 200 ==>
      && resp.payload.MemberLogin?
      && resp.payload.userId in db.users
      && db.users[resp.payload.userId].lineUid == lineUid
      && db.users[resp.payload.userId].restaurantId == restaurantId
      && resp.payload.lineUid == lineUid
      && resp.payload.name == db.users[resp.payload.userId].name
      && resp.payload.mainElement == MainElementOf(db.userElements, resp.payload.userId)
      && resp.payload.favorable == (if resp.payload.userId in db.userElements
                                    then db.userElements[resp.payload.userId].favorable else None)
  {
    if restaurantId !in db.restaurants {
      return Response(404, Message("Restaurant not found"));
    }
    var found := MatchingUsers(db.users, lineUid, restaurantId);
    if found == {} {
      return Response(404, RegisterPrompt);
    }
    var id := Ordering.Pick(found);
    var row := MemberRowOf(db.users, db.userElements, id);
    resp := Response(200, MemberLogin(id, row.user.lineUid, row.user.name,
                                      if row.element.Some? then Some(row.element.value.mainElement) else None,
                                      if row.element.Some? then row.element.value.favorable else None));
  }

  // ---------------------------------------------------------------- register

  /** The chart answered with a summary whose main element is valid. */
  predicate ChartUsable(outcome: ChartOutcome) {
    outcome.ChartOk? && outcome.summary.Some? && IsValidElement(outcome.summary.value.mainElement)
  }

  /** The answer register and editProfile give when the chart call does not yield a usable
      element: 503 when it threw, 502 "Invalid Bazi response" without a summary, 502
      "Invalid element data" when the main element is not one of the five; no answer (the
      handler goes on) exactly when the chart is usable. */
  function ChartRejection(outcome: ChartOutcome): (r: Option<Response>)
    ensures r.None? <==> ChartUsable(outcome)
    ensures outcome.ChartFail? ==> r == Some(Response(503, Message("Bazi service unavailable")))
    ensures outcome == ChartOk(None) ==> r == Some(Response(502, Message("Invalid Bazi response")))
    ensures outcome.ChartOk? && outcome.summary.Some? && !ChartUsable(outcome) ==>
      r == Some(Response(502, Message("Invalid element data")))
  {
    if outcome.ChartFail? then Some(Response(503, Message("Bazi service unavailable")))
    else if outcome.summary.None? then Some(Response(502, Message("Invalid Bazi response")))
    else if !IsValidElement(outcome.summary.value.mainElement) then Some(Response(502, Message("Invalid element data")))
    else None
  }

  /** register: one transaction. 404 for an unknown restaurant and 409 for a LINE user
      already registered there; the ChartRejection answer when the chart call throws, has
      no summary, or names no valid element. On every one of these paths no table changes.
      Otherwise 201, with exactly one new user and its element profile, whose main
      element is one of the five. */
  method Register(db: Store.Db, lineUid: string, name: string, gender: string, phone: string,
                  birthDate: string, birthTime: string, birthPlace: string, restaurantId: Id,
                  chart: ChartRequest -> ChartOutcome, now: Timestamp)
    returns (resp: Response)
    requires db.Valid()
    modifies db
    ensures db.Valid()
    ensures resp.status in {201, 404, 409, 502, 503}
    ensures resp.status != 201 ==> db.State() == old(db.State())
    ensures resp.status == 404 <==> restaurantId !in old(db.restaurants)
    ensures resp.status == 409 <==>
      restaurantId in old(db.restaurants) && MatchingUsers(old(db.users), lineUid, restaurantId) != {}
    ensures resp.status == 404 ==> resp.payload == Message("Restaurant not found")
    ensures resp.status == 409 ==> resp.payload == Message("User already registered")
    ensures resp.status in {502, 503} ==>
      Some(resp) == ChartRejection(chart(ChartRequestFor(name, birthDate, birthTime, birthPlace)))
    ensures resp.status == 503 <==>
      && restaurantId in old(db.restaurants) && MatchingUsers(old(db.users), lineUid, restaurantId) == {}
      && chart(ChartRequestFor(name, birthDate, birthTime, birthPlace)).ChartFail?
    ensures resp.status == 502 <==>
      && restaurantId in old(db.restaurants) && MatchingUsers(old(db.users), lineUid, restaurantId) == {}
      && chart(ChartRequestFor(name, birthDate, birthTime, birthPlace)).ChartOk?
      && !ChartUsable(chart(ChartRequestFor(name, birthDate, birthTime, birthPlace)))
    ensures resp.status == 201 <==>
      && restaurantId in old(db.restaurants) && MatchingUsers(old(db.users), lineUid, restaurantId) == {}
      && ChartUsable(chart(ChartRequestFor(name, birthDate, birthTime, birthPlace)))
    ensures resp.status == 201 ==>
      var s := chart(ChartRequestFor(name, birthDate, birthTime, birthPlace)).summary.value;
      var id := Store.NextKey(old(db.users));
      && resp == Response(201, Registered(id, name, lineUid, s.mainElement.value, s.favorable, s.unfavorable))
      && s.mainElement.value in VALID_ELEMENTS
      && db.State() == old(db.State()).(
           users := old(db.users)[id := User(lineUid, restaurantId, name, gender, phone, birthDate, birthTime, birthPlace, now)],
           userElements := old(db.userElements)[id := UserElement(s.mainElement.value, s.favorable, s.unfavorable, now, None)])
  {
    var tx := new Store.Db.Begin(db);
    if restaurantId !in tx.restaurants {
      return Response(404, Message("Restaurant not found"));
    }
    if MatchingUsers(tx.users, lineUid, restaurantId) != {} {
      return Response(409, Message("User already registered"));
    }
    var request := ChartRequestFor(name, birthDate, birthTime, birthPlace);
    var userId := tx.InsertUser(User(lineUid, restaurantId, name, gender, phone, birthDate, birthTime, birthPlace, now));
    var outcome := chart(request);
    var rejection := ChartRejection(outcome);
    if rejection.Some? {
      return rejection.value;
    }
    var summary := outcome.summary.value;
    var main := summary.mainElement.value;
    RegistrationKeepsConsistent(db.State(), userId,
                                User(lineUid, restaurantId, name, gender, phone, birthDate, birthTime, birthPlace, now),
                                UserElement(main, summary.favorable, summary.unfavorable, now, None));
    tx.InsertElement(userId, UserElement(main, summary.favorable, summary.unfavorable, now, None));
    db.Commit(tx);
    resp := Response(201, Registered(userId, name, lineUid, main, summary.favorable, summary.unfavorable));
  }

  /** A user whose (LINE id, restaurant) pair is new keeps the members unique. */
  lemma MemberStaysUnique(users: map<Id, User>, id: Id, u: User)
    requires UniqueMembers(users)
    requires MatchingUsers(users, u.lineUid, u.restaurantId) == {}
    ensures UniqueMembers(users[id := u])
  {
    assert forall a :: a in users && users[a].lineUid == u.lineUid && users[a].restaurantId == u.restaurantId
                       ==> a in MatchingUsers(users, u.lineUid, u.restaurantId);
  }

  /** Adding a new member together with its element profile keeps the database
      consistent. */
  lemma RegistrationKeepsConsistent(t: Tables, id: Id, u: User, e: UserElement)
    requires Consistent(t)
    requires MatchingUsers(t.users, u.lineUid, u.restaurantId) == {}
    ensures Consistent(t.(users := t.users[id := u], userElements := t.userElements[id := e]))
  {
    MemberStaysUnique(t.users, id, u);
  }

  // ---------------------------------------------------------------- editProfile

  /** The birth fields of a profile. */
  datatype Birth = Birth(date: string, time: string, place: string)

  /** `finalBirthDate = birth_date || user.birth_date`, and so on. */
  function MergedBirth(p: ProfilePatch, u: User): Birth {
    Birth(OrElse(p.birthDate, u.birthDate), OrElse(p.birthTime, u.birthTime), OrElse(p.birthPlace, u.birthPlace))
  }

  /** `birthChanged`: some supplied, truthy birth field differs from the stored one. */
  predicate BirthChanged(p: ProfilePatch, u: User) {
    || (Truthy(p.birthDate) && p.birthDate.value != u.birthDate)
    || (Truthy(p.birthTime) && p.birthTime.value != u.birthTime)
    || (Truthy(p.birthPlace) && p.birthPlace.value != u.birthPlace)
  }

  /** The birth data counts as changed exactly when the merged fields differ from the
      stored ones. */
  lemma BirthChangedExact(p: ProfilePatch, u: User)
    ensures BirthChanged(p, u) <==> MergedBirth(p, u) != Birth(u.birthDate, u.birthTime, u.birthPlace)
  {
  }

  /** The chart request editProfile sends: `name || user.name` and the merged birth data. */
  function ProfileChartRequest(p: ProfilePatch, u: User): ChartRequest {
    var birth := MergedBirth(p, u);
    ChartRequestFor(OrElse(p.name, u.name), birth.date, birth.time, birth.place)
  }

  /** `name || gender || phone || birth_date || birth_time || birth_place`. */
  predicate AnyProfileField(p: ProfilePatch) {
    Truthy(p.name) || Truthy(p.gender) || Truthy(p.phone)
    || Truthy(p.birthDate) || Truthy(p.birthTime) || Truthy(p.birthPlace)
  }

  /** editProfile. Its writes go to a transaction that is never committed: 404 for an
      unknown restaurant or user, 503 / 502 when a changed birth needs a chart and the
      call fails; every other run reads `main_element` after the block that declares it,
      throws, rolls back and answers 500. The method has no write access to `db`: no
      table ever changes. */
  method EditProfile(db: Store.Db, lineUid: string, restaurantId: Id, patch: ProfilePatch,
                     chart: ChartRequest -> ChartOutcome, now: Timestamp)
    returns (resp: Response)
    requires db.Valid()
    ensures resp.status in {404, 500, 502, 503}
    ensures resp.status == 404 <==>
      restaurantId !in db.restaurants || MatchingUsers(db.users, lineUid, restaurantId) == {}
    ensures forall id :: restaurantId in db.restaurants && id in MatchingUsers(db.users, lineUid, restaurantId) ==>
      var u := db.users[id];
      var outcome := chart(ProfileChartRequest(patch, u));
      && (resp.status == 503 <==> BirthChanged(patch, u) && outcome.ChartFail?)
      && (resp.status == 502 <==> BirthChanged(patch, u) && outcome.ChartOk? && !ChartUsable(outcome))
      && (resp.status == 500 <==> !BirthChanged(patch, u) || ChartUsable(outcome))
      && (resp.status in {502, 503} ==> Some(resp) == ChartRejection(outcome))
    ensures restaurantId !in db.restaurants ==> resp == Response(404, Message("Restaurant not found"))
    ensures restaurantId in db.restaurants && MatchingUsers(db.users, lineUid, restaurantId) == {} ==>
      resp == Response(404, Message("User not found"))
    ensures resp.status == 500 ==> resp.payload == Message("Server error")
  {
    var tx := new Store.Db.Begin(db);
    if restaurantId !in tx.restaurants {
      return Response(404, Message("Restaurant not found"));
    }
    var found := MatchingUsers(tx.users, lineUid, restaurantId);
    if found == {} {
      return Response(404, Message("User not found"));
    }
    var id := Ordering.Pick(found);
    var user := tx.users[id];
    if AnyProfileField(patch) {
      tx.UpdateUser(id, restaurantId, patch);
    }
    MatchingUsersAtMostOne(db.users, lineUid, restaurantId);
    if BirthChanged(patch, user) {
      var outcome := chart(ProfileChartRequest(patch, user));
      var rejection := ChartRejection(outcome);
      if rejection.Some? {
        return rejection.value;
      }
      var summary := outcome.summary.value;
      tx.UpdateElement(id, summary.mainElement.value, summary.favorable, summary.unfavorable, now);
    }
    // `recalculatePrediction(user.id, main_element)`: the name is not in scope here, the
    // ReferenceError reaches the catch block, which rolls back.
    resp := Response(500, Message("Server error"));
  }

  // ---------------------------------------------------------------- predictions

  /** prediction. A stored prediction for (user, today) is answered as is, with no call and
      no write. On a miss: 400 when the user's element is not one of the five, 500 when no
      model key is configured, 503 when the call throws; otherwise the recommendation is
      answered and saved by the upsert (every row of the user rewritten, or one row
      inserted). */
  method Prediction(db: Store.Db, userId: Id, today: Date, keyConfigured: bool,
                    narrate: string -> LlmOutcome, now: Timestamp)
    returns (resp: Response)
    requires db.Valid()
    modifies db
    ensures db.Valid()
    ensures resp.status == 404 <==> userId !in old(db.users)
    ensures resp.status == 404 ==> resp.payload == Message("User not found")
    ensures resp.status != 200 ==> db.State() == old(db.State())
    ensures userId in old(db.users) && PredictionsOn(old(db.predictions), userId, today) != {} ==>
      && resp.status == 200 && db.State() == old(db.State())
      && exists hit :: hit in PredictionsOn(old(db.predictions), userId, today)
                       && resp.payload == Message(old(db.predictions)[hit].text)
    ensures userId in old(db.users) && PredictionsOn(old(db.predictions), userId, today) == {} ==>
      if !IsValidElement(MainElementOf(old(db.userElements), userId)) then
        resp == Response(400, Message("Invalid user element data"))
      else if !keyConfigured then
        resp == Response(500, Message("AI service not configured"))
      else
        var outcome := narrate(MainElementOf(old(db.userElements), userId).value);
        if outcome.LlmFail? then resp == Response(503, Message("Prediction service unavailable"))
        else
          && resp == Response(200, Message(Recommendation(outcome.choice)))
          && db.State() == old(db.State()).(predictions :=
               Store.Upserted(old(db.predictions), userId, today, Recommendation(outcome.choice), now))
  {
    if userId !in db.users {
      return Response(404, Message("User not found"));
    }
    var hits := PredictionsOn(db.predictions, userId, today);
    if hits != {} {
      var hit := Ordering.Pick(hits);
      return Response(200, Message(db.predictions[hit].text));
    }
    var element := MainElementOf(db.userElements, userId);
    if !IsValidElement(element) {
      return Response(400, Message("Invalid user element data"));
    }
    if !keyConfigured {
      return Response(500, Message("AI service not configured"));
    }
    var outcome := narrate(element.value);
    if outcome.LlmFail? {
      return Response(503, Message("Prediction service unavailable"));
    }
    var recommendation := Recommendation(outcome.choice);
    db.SavePrediction(userId, today, recommendation, now);
    resp := Response(200, Message(recommendation));
  }

  /** recalculatePrediction: throws for an invalid element; returns a stored prediction
      for (user, today) as is; otherwise asks the model (a failed call throws), saves the
      recommendation with the same upsert and returns it. */
  method RecalculatePrediction(db: Store.Db, userId: Id, element: Option<string>, today: Date,
                               narrate: string -> LlmOutcome, now: Timestamp)
    returns (c: Completion<string>)
    requires db.Valid()
    modifies db
    ensures db.Valid()
    ensures !IsValidElement(element) ==> c == Threw && db.State() == old(db.State())
    ensures c.Threw? ==> db.State() == old(db.State())
    ensures IsValidElement(element) && PredictionsOn(old(db.predictions), userId, today) != {} ==>
      && db.State() == old(db.State())
      && exists hit :: hit in PredictionsOn(old(db.predictions), userId, today)
                       && c == Returned(old(db.predictions)[hit].text)
    ensures IsValidElement(element) && PredictionsOn(old(db.predictions), userId, today) == {} ==>
      var outcome := narrate(element.value);
      if outcome.LlmFail? then c == Threw
      else
        && c == Returned(Recommendation(outcome.choice))
        && db.State() == old(db.State()).(predictions :=
             Store.Upserted(old(db.predictions), userId, today, Recommendation(outcome.choice), now))
  {
    if !IsValidElement(element) {
      return Threw;
    }
    var hits := PredictionsOn(db.predictions, userId, today);
    if hits != {} {
      var hit := Ordering.Pick(hits);
      return Returned(db.predictions[hit].text);
    }
    var outcome := narrate(element.value);
    if outcome.LlmFail? {
      return Threw;
    }
    var recommendation := Recommendation(outcome.choice);
    db.SavePrediction(userId, today, recommendation, now);
    c := Returned(recommendation);
  }

  // ---------------------------------------------------------------- findMenu

  /** findMenu: 404 for an unknown user; otherwise, newest first, exactly the AVAILABLE
      menus of the user's restaurant whose element array holds the user's main element
      (none when the user has no element profile). */
  method FindMenu(db: Store.Db, userId: Id) returns (resp: Response)
    ensures resp.status == 404 <==> userId !in db.users
    ensures resp.status == 404 ==> resp.payload == Message("User not found")
    ensures resp.status != 404 ==>
      && userId in db.users
      && resp.status == 200 && resp.payload.MenuList?
      && multiset(resp.payload.menu)
           == multiset(UserMenus(db.menus, db.users, db.userElements, userId, db.users[userId].restaurantId))
      && Ordering.SortedDesc(resp.payload.menu, (r: MenuRow) => r.menu.createdAt as int)
      && (forall r :: r in resp.payload.menu ==>
            && r.id in db.menus && r.menu == db.menus[r.id]
            && r.menu.restaurantId == db.users[userId].restaurantId
            && r.menu.status == AVAILABLE
            && userId in db.userElements
            && ContainsScalar(r.menu.element, db.userElements[userId].mainElement))
  {
    if userId !in db.users {
      return Response(404, Message("User not found"));
    }
    var restaurantId := db.users[userId].restaurantId;
    var rows := UserMenus(db.menus, db.users, db.userElements, userId, restaurantId);
    var menu := Ordering.OrderByDesc(rows, (r: MenuRow) => r.menu.createdAt as int);
    forall r | r in menu
      ensures r in rows
    {
      assert r in multiset(menu);
    }
    resp := Response(200, MenuList(menu));
  }

  // ---------------------------------------------------------------- coupons

  predicate IsUpperHex(c: char) {
    '0' <= c <= '9' || 'A' <= c <= 'F'
  }

  /** "PROMO-" followed by eight upper-case hexadecimal digits. */
  predicate IsCouponCode(code: string) {
    |code| == 14 && code[..6] == "PROMO-" && forall i :: 6 <= i < 14 ==> IsUpperHex(code[i])
  }

  /** createCoupon: 400 unless the promotion exists and is active today; otherwise a new
      UNUSED coupon with code "PROMO-" + the random hex, unless the code or the (user,
      promotion) pair is already taken (409, nothing added). */
  method CreateCoupon(db: Store.Db, promotionId: Id, userId: Id, today: Date, randomHex: string, now: Timestamp)
    returns (resp: Response)
    requires |randomHex| == 8 && forall i :: 0 <= i < 8 ==> IsUpperHex(randomHex[i])
    requires db.Valid()
    modifies db
    ensures db.Valid()
    ensures resp.status in {201, 400, 409}
    ensures resp.status != 201 ==> db.State() == old(db.State())
    ensures resp.status == 400 <==> ActivePromotion(old(db.promotions), promotionId, today) == {}
    ensures resp.status == 400 ==> resp.payload == Message("Promotion is not active or does not exist")
    ensures resp.status == 409 <==>
      ActivePromotion(old(db.promotions), promotionId, today) != {}
      && CouponClash(old(db.coupons), userId, promotionId, "PROMO-" + randomHex)
    ensures resp.status == 409 ==> resp.payload == Message("You have already claimed this promotion")
    ensures resp.status == 201 <==>
      ActivePromotion(old(db.promotions), promotionId, today) != {}
      && !CouponClash(old(db.coupons), userId, promotionId, "PROMO-" + randomHex)
    ensures resp.status == 201 ==>
      && resp == Response(201, CouponCreated("PROMO-" + randomHex))
      && IsCouponCode(resp.payload.code)
      && db.State() == old(db.State()).(coupons := old(db.coupons)[Store.NextKey(old(db.coupons)) :=
           Coupon(userId, promotionId, "PROMO-" + randomHex, UNUSED, now, None)])
  {
    var active := ActivePromotion(db.promotions, promotionId, today);
    if active == {} {
      return Response(400, Message("Promotion is not active or does not exist"));
    }
    var code := "PROMO-" + randomHex;
    ghost var before := db.coupons;
    var inserted := db.InsertCoupon(userId, promotionId, code, now);
    if !inserted {
      return Response(409, Message("You have already claimed this promotion"));
    }
    CouponsStayUnique(before, userId, promotionId, code, now);
    resp := Response(201, CouponCreated(code));
  }

  /** A coupon whose code and (user, promotion) pair are both new keeps the coupons unique. */
  lemma CouponsStayUnique(coupons: map<Id, Coupon>, userId: Id, promotionId: Id, code: string, now: Timestamp)
    requires UniqueCoupons(coupons)
    requires forall id :: id in coupons ==> coupons[id].code != code
    requires forall id :: id in coupons ==> !(coupons[id].userId == userId && coupons[id].promotionId == promotionId)
    ensures UniqueCoupons(coupons[Store.NextKey(coupons) := Coupon(userId, promotionId, code, UNUSED, now, None)])
  {
  }

  /** The coupon `id` carries the code, its promotion still exists and it is UNUSED. */
  ghost predicate Redeemable(coupons: map<Id, Coupon>, promotions: map<Id, Promotion>, code: string, id: Id) {
    id in coupons && coupons[id].code == code && coupons[id].promotionId in promotions && coupons[id].status == UNUSED
  }

  /** useCoupon: 400 "Invalid or expired coupon" when no coupon with that code joins a
      promotion, 400 "Coupon already used" when it is not UNUSED, both with nothing
      changed; otherwise exactly that coupon becomes USED (stamped now) and the
      promotion's discount is answered. The end date is not checked. */
  method UseCoupon(db: Store.Db, code: string, now: Timestamp) returns (resp: Response)
    requires db.Valid()
    modifies db
    ensures db.Valid()
    ensures resp.status in {200, 400}
    ensures resp.status == 400 ==> db.State() == old(db.State())
    ensures resp == Response(400, Message("Invalid or expired coupon")) <==>
      CouponsWithCode(old(db.coupons), old(db.promotions), code) == {}
    ensures resp == Response(400, Message("Coupon already used")) <==>
      CouponsWithCode(old(db.coupons), old(db.promotions), code) != {}
      && !exists id :: Redeemable(old(db.coupons), old(db.promotions), code, id)
    ensures resp.status == 200 <==> exists id :: Redeemable(old(db.coupons), old(db.promotions), code, id)
    ensures resp.status == 200 ==>
      exists id :: && Redeemable(old(db.coupons), old(db.promotions), code, id)
                   && resp == Response(200, CouponApplied(old(db.promotions)[old(db.coupons)[id].promotionId].discount))
                   && db.State() == old(db.State()).(coupons := MarkUsed(old(db.coupons), id, now))
  {
    var tx := new Store.Db.Begin(db);
    var rows := CouponsWithCode(tx.coupons, tx.promotions, code);
    LookupDecidesRedemption(tx.coupons, tx.promotions, code);
    if rows == {} {
      return Response(400, Message("Invalid or expired coupon"));
    }
    var coupon := Ordering.Pick(rows);
    if coupon.status != UNUSED {
      return Response(400, Message("Coupon already used"));
    }
    MarkUsedKeepsConsistent(tx.State(), coupon.couponId, now);
    tx.MarkCouponUsed(coupon.couponId, now);
    db.Commit(tx);
    resp := Response(200, CouponApplied(coupon.discount));
  }

  /** The row the lookup returns decides the redemption: a redeemable coupon is always
      found, and the row found is UNUSED exactly when its coupon is redeemable -- if it
      is not, no coupon with that code is. */
  lemma LookupDecidesRedemption(coupons: map<Id, Coupon>, promotions: map<Id, Promotion>, code: string)
    requires UniqueCoupons(coupons)
    ensures (exists id :: Redeemable(coupons, promotions, code, id)) ==> CouponsWithCode(coupons, promotions, code) != {}
    ensures forall row :: row in CouponsWithCode(coupons, promotions, code) ==>
      && row.couponId in coupons && coupons[row.couponId].promotionId in promotions
      && row.discount == promotions[coupons[row.couponId].promotionId].discount
      && (row.status == UNUSED ==> Redeemable(coupons, promotions, code, row.couponId))
      && (row.status != UNUSED ==> !exists id :: Redeemable(coupons, promotions, code, id))
  {
    forall id | Redeemable(coupons, promotions, code, id)
      ensures CouponsWithCode(coupons, promotions, code) != {}
    {
      assert CouponRow(id, UNUSED, code, promotions[coupons[id].promotionId].discount,
                       promotions[coupons[id].promotionId].endDate) in CouponsWithCode(coupons, promotions, code);
    }
    forall row | row in CouponsWithCode(coupons, promotions, code)
      ensures row.status != UNUSED ==> !exists id :: Redeemable(coupons, promotions, code, id)
    {
      CouponLookupExact(coupons, promotions, code, row);
    }
  }

  /** Marking a coupon used changes no code and no (user, promotion) pair, so the
      database stays consistent. */
  lemma MarkUsedKeepsConsistent(t: Tables, id: Id, now: Timestamp)
    requires Consistent(t)
    ensures Consistent(t.(coupons := MarkUsed(t.coupons, id, now)))
  {
    var after := MarkUsed(t.coupons, id, now);
    assert forall k :: k in after ==>
      && k in t.coupons && after[k].code == t.coupons[k].code
      && after[k].userId == t.coupons[k].userId && after[k].promotionId == t.coupons[k].promotionId;
  }

  /** Redeeming marks the coupon USED, so the next lookup of its code finds it used and a
      second redemption is refused; no other coupon changes. */
  lemma RedeemedCouponIsUsed(coupons: map<Id, Coupon>, promotions: map<Id, Promotion>, code: string, id: Id, now: Timestamp)
    requires UniqueCoupons(coupons)
    requires Redeemable(coupons, promotions, code, id)
    ensures CouponsWithCode(MarkUsed(coupons, id, now), promotions, code) != {}
    ensures forall row :: row in CouponsWithCode(MarkUsed(coupons, id, now), promotions, code) ==> row.status == USED
    ensures !exists other :: Redeemable(MarkUsed(coupons, id, now), promotions, code, other)
    ensures forall other :: other in coupons && other != id ==> MarkUsed(coupons, id, now)[other] == coupons[other]
  {
    var after := MarkUsed(coupons, id, now);
    assert after[id] == coupons[id].(status := USED, usedAt := Some(now));
    assert CouponRow(id, USED, code, promotions[coupons[id].promotionId].discount,
                     promotions[coupons[id].promotionId].endDate) in CouponsWithCode(after, promotions, code);
  }
}
