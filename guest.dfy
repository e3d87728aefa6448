/**
 * The guest handler of wedding/guest.py: an administrator records a guest's menu choices,
 * each checked against the menu for its course.
 */
module GuestApi {
  import opened Wrappers
  import opened Query
  import opened Models
  import opened Utils

  /** The body of `update_menu_options`; an absent id reads as 0. */
  datatype MenuChoice = MenuChoice(starterId: Option<int>, mainId: Option<int>, desertId: Option<int>)

  /** `MenuItem.query.filter_by(course=course, id=id).first()` finds an item. */
  predicate OnMenu(items: seq<MenuItem>, course: MenuCourse, id: int) {
    exists j :: 0 <= j < |items| && items[j].course == course && items[j].id == id
  }

  function StarterRejected(id: int): Message {
    Fail("Starter ID '" + ShowInt(id) + " is not a valid starter", map[])
  }

  function MainRejected(id: int): Message {
    Fail("Main ID '" + ShowInt(id) + "' is not a valid main course", map[])
  }

  function DesertRejected(id: int): Message {
    Fail("Desert ID '" + ShowInt(id) + "' is not a valid desert course", map[])
  }

  /** `MenuItem.query.filter_by(course=course, id=id).first()`: found exactly when the item is on the menu. */
  function MenuLookup(items: seq<MenuItem>, course: MenuCourse, id: int): (r: Option<nat>)
    ensures r.None? <==> !OnMenu(items, course, id)
    ensures r.Some? ==> r.value < |items| && items[r.value].course == course && items[r.value].id == id
  {
    FindFirst(items, (x: MenuItem) => x.course == course && x.id == id)
  }

  /** A course id is accepted when it is 0 or less (nothing chosen) or names an item of that course. */
  predicate Acceptable(items: seq<MenuItem>, course: MenuCourse, id: int) {
    id <= 0 || OnMenu(items, course, id)
  }

  /**
   * The message of the first rejected course, checking starter, then main, then desert;
   * `None` when every chosen id is on the menu for its course.
   */
  function FirstRejection(items: seq<MenuItem>, choice: MenuChoice): (r: Option<Message>)
    ensures r.None? <==> Acceptable(items, Starter, choice.starterId.GetOr(0))
                         && Acceptable(items, Main, choice.mainId.GetOr(0))
                         && Acceptable(items, Desert, choice.desertId.GetOr(0))
    ensures !Acceptable(items, Starter, choice.starterId.GetOr(0)) ==> r == Some(StarterRejected(choice.starterId.value))
    ensures Acceptable(items, Starter, choice.starterId.GetOr(0)) && !Acceptable(items, Main, choice.mainId.GetOr(0))
            ==> r == Some(MainRejected(choice.mainId.value))
    ensures (Acceptable(items, Starter, choice.starterId.GetOr(0)) && Acceptable(items, Main, choice.mainId.GetOr(0))
             && !Acceptable(items, Desert, choice.desertId.GetOr(0)))
            ==> r == Some(DesertRejected(choice.desertId.value))
  {
    var s := choice.starterId.GetOr(0);
    var m := choice.mainId.GetOr(0);
    var d := choice.desertId.GetOr(0);
    if s > 0 && MenuLookup(items, Starter, s).None? then Some(StarterRejected(s))
    else if m > 0 && MenuLookup(items, Main, m).None? then Some(MainRejected(m))
    else if d > 0 && MenuLookup(items, Desert, d).None? then Some(DesertRejected(d))
    else None
  }

  /** The guest with every positive course id stored in its course field; the other fields are kept. */
  function WithChoices(g: GuestRow, choice: MenuChoice): (r: GuestRow)
    ensures choice.starterId.GetOr(0) > 0 ==> r.firstCourse == choice.starterId
    ensures choice.starterId.GetOr(0) <= 0 ==> r.firstCourse == g.firstCourse
    ensures choice.mainId.GetOr(0) > 0 ==> r.mainCourse == choice.mainId
    ensures choice.mainId.GetOr(0) <= 0 ==> r.mainCourse == g.mainCourse
    ensures choice.desertId.GetOr(0) > 0 ==> r.desertCourse == choice.desertId
    ensures choice.desertId.GetOr(0) <= 0 ==> r.desertCourse == g.desertCourse
    ensures r.(firstCourse := g.firstCourse, mainCourse := g.mainCourse, desertCourse := g.desertCourse) == g
  {
    g.(firstCourse := if choice.starterId.GetOr(0) > 0 then choice.starterId else g.firstCourse,
       mainCourse := if choice.mainId.GetOr(0) > 0 then choice.mainId else g.mainCourse,
       desertCourse := if choice.desertId.GetOr(0) > 0 then choice.desertId else g.desertCourse)
  }

  /** Once no course is rejected, every course the update stores is on the menu for that course. */
  lemma AcceptedChoicesOnMenu(items: seq<MenuItem>, g: GuestRow, choice: MenuChoice)
    requires FirstRejection(items, choice).None?
    ensures var r := WithChoices(g, choice);
            && (choice.starterId.GetOr(0) > 0 ==> r.firstCourse.Some? && OnMenu(items, Starter, r.firstCourse.value))
            && (choice.mainId.GetOr(0) > 0 ==> r.mainCourse.Some? && OnMenu(items, Main, r.mainCourse.value))
            && (choice.desertId.GetOr(0) > 0 ==> r.desertCourse.Some? && OnMenu(items, Desert, r.desertCourse.value))
  {
  }

  /**
   * The course checks of `update_menu_options`, in order: each chosen course must be on the
   * menu for that course and is then stored on the guest; the first course that is not
   * stops the checks with its message.
   */
  method CheckChoices(items: seq<MenuItem>, g: GuestRow, choice: MenuChoice)
    returns (rejection: Option<Message>, updated: GuestRow)
    ensures rejection == FirstRejection(items, choice)
    ensures rejection.None? ==> updated == WithChoices(g, choice)
  {
    var starterId := choice.starterId.GetOr(0);
    var mainId := choice.mainId.GetOr(0);
    var desertId := choice.desertId.GetOr(0);
    updated := g;
    if starterId > 0 {
      var starter := MenuLookup(items, Starter, starterId);
      if starter.None? {
        return Some(StarterRejected(starterId)), updated;
      }
      updated := updated.(firstCourse := Some(starterId));
    }
    if mainId > 0 {
      var main := MenuLookup(items, Main, mainId);
      if main.None? {
        return Some(MainRejected(mainId)), updated;
      }
      updated := updated.(mainCourse := Some(mainId));
    }
    if desertId > 0 {
      var desert := MenuLookup(items, Desert, desertId);
      if desert.None? {
        return Some(DesertRejected(desertId)), updated;
      }
      updated := updated.(desertCourse := Some(desertId));
    }
    rejection := None;
  }

  /**
   * `update_menu_options`: for an existing guest, each chosen course is checked in turn and
   * stored; the first rejected course answers 401 and nothing is committed; otherwise the
   * choices are committed and 201 returned. An unknown guest answers 404.
   */
  method UpdateMenuOptions(db: Database, body: MenuChoice, guestId: int, caller: Option<UserRow>)
    returns (r: Outcome<Reply<()>>)
    requires db.Valid()
    modifies db`guests
    ensures db.Valid()
    ensures !IsAdmin(caller) ==> r == Raised(AdminCheck(caller).value) && db.guests == old(db.guests)
    ensures IsAdmin(caller) && GuestAt(old(db.guests), guestId).None? ==>
              r == Respond(Fail("Guest not found", map[]), 404) && db.guests == old(db.guests)
    ensures IsAdmin(caller) && GuestAt(old(db.guests), guestId).Some? && FirstRejection(db.items, body).Some? ==>
              r == Respond(FirstRejection(db.items, body).value, 401) && db.guests == old(db.guests)
    ensures IsAdmin(caller) && GuestAt(old(db.guests), guestId).Some? && FirstRejection(db.items, body).None? ==>
              var i := GuestAt(old(db.guests), guestId).value;
              r == Respond(Success("Guest menu choices have been updated", map[]), 201)
              && db.guests == old(db.guests)[i := WithChoices(old(db.guests)[i], body)]
    // every course a guest holds after a successful update is on the menu for that course,
    // unless the update left it untouched
    ensures r.Returned? && r.value.status == 201 ==>
              var g := db.guests[GuestAt(old(db.guests), guestId).value];
              (body.starterId.GetOr(0) > 0 ==> OnMenu(db.items, Starter, g.firstCourse.value))
              && (body.mainId.GetOr(0) > 0 ==> OnMenu(db.items, Main, g.mainCourse.value))
              && (body.desertId.GetOr(0) > 0 ==> OnMenu(db.items, Desert, g.desertCourse.value))
  {
    var guard := AdminCheck(caller);
    if guard.Some? {
      return Raised(guard.value);
    }
    var found := GuestAt(db.guests, guestId);
    if found.None? {
      return Respond(Fail("Guest not found", map[]), 404);
    }
    var i := found.value;
    var rejection, guest := CheckChoices(db.items, db.guests[i], body);
    if rejection.Some? {
      return Respond(rejection.value, 401);
    }
    AcceptedChoicesOnMenu(db.items, db.guests[i], body);
    db.ReplaceGuest(i, guest);
    r := Respond(Success("Guest menu choices have been updated", map[]), 201);
  }
}
