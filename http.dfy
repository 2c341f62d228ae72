/** What a handler sends back: an HTTP status and a JSON body. */
module Http {
  import opened Common
  import opened Queries

  /** One entry of the validation error list: `{ field, message }`. */
  datatype FieldError = FieldError(field: string, message: string)

  datatype Payload =
    | Message(message: string)
      /** `{ action: "Register" }`: the LINE user is not registered with this restaurant. */
    | RegisterPrompt
      /** `{ action: "LOGIN", user: { id, line_uid, name }, bazi: { main_element, favorable_elements } }` */
    | MemberLogin(userId: Id, lineUid: string, name: string, mainElement: Option<string>,
                  favorable: Option<seq<string>>)
      /** `{ action: "LOGIN", user: { id, name, line_uid }, bazi: { ... } }` after registration. */
    | Registered(userId: Id, name: string, lineUid: string, element: string,
                 favorable: Option<seq<string>>, unfavorable: Option<seq<string>>)
    | MenuList(menu: seq<MenuRow>)
      /** `{ message: "No menus found", menu: [] }` */
    | NoMenus
    | CouponCreated(code: string)
    | CouponApplied(discount: real)
    | PromotionCreated(groupId: int, menuCount: nat)
    | PromotionGroup(summary: GroupSummary)
    | RestaurantSession(restaurantId: Id, name: string, email: string)
    | RestaurantMembers(elements: seq<ElementCount>, users: seq<UserListing>)
    | ValidationFailed(errors: seq<FieldError>)

  datatype Response = Response(status: nat, payload: Payload)
}
