/**
 * The menu handlers of wedding/menu.py: reading, creating, editing and deleting menu items.
 * Only the edit is restricted to administrators; the `user` argument the framework passes
 * to the others is not consulted, so they take no caller here.
 */
module MenuApi {
  import opened Wrappers
  import opened Query
  import opened Models
  import opened Utils

  /** The body of `create_item` / `update_item`: an absent key is `None`. */
  datatype ItemBody = ItemBody(
    course: Option<MenuCourse>,
    description: Option<string>,
    glutenFree: Option<bool>,
    vegetarian: Option<bool>,
    additionalInfo: Option<string>)

  function ItemMissing(id: int): Message {
    Fail("Menu item with id " + ShowInt(id) + " does not exist", map[])
  }

  /** `get_item`: the item with that id (no status, so 200), or 404. */
  function GetItem(db: Database, id: int): (r: Outcome<Reply<MenuItem>>)
    reads db
    ensures ItemAt(db.items, id).None? ==> r == Respond(ItemMissing(id), 404)
    ensures ItemAt(db.items, id).Some? ==>
              r.Returned? && r.value.status == DefaultStatus && r.value.body.Data?
              && r.value.body.value in db.items && r.value.body.value.id == id
  {
    match ItemAt(db.items, id)
    case None => Respond(ItemMissing(id), 404)
    case Some(i) => Returned(Reply(Data(db.items[i]), DefaultStatus))
  }

  /** `update_item`'s merge: a key present in the body replaces its field, an absent key keeps it. */
  function ApplyItemPatch(m: MenuItem, body: ItemBody): (r: MenuItem)
    ensures r.id == m.id
    ensures body.course.None? ==> r.course == m.course
    ensures body.course.Some? ==> r.course == body.course.value
    ensures body.description.None? ==> r.description == m.description
    ensures body.description.Some? ==> r.description == body.description.value
    ensures body.glutenFree.None? ==> r.glutenFree == m.glutenFree
    ensures body.glutenFree.Some? ==> r.glutenFree == body.glutenFree.value
    ensures body.vegetarian.None? ==> r.vegetarian == m.vegetarian
    ensures body.vegetarian.Some? ==> r.vegetarian == body.vegetarian.value
    ensures body.additionalInfo.None? ==> r.additionalInfo == m.additionalInfo
    ensures body.additionalInfo.Some? ==> r.additionalInfo == body.additionalInfo
  {
    MenuItem(m.id, body.course.GetOr(m.course), body.description.GetOr(m.description),
             body.glutenFree.GetOr(m.glutenFree), body.vegetarian.GetOr(m.vegetarian),
             if body.additionalInfo.Some? then body.additionalInfo else m.additionalInfo)
  }

  /** `update_item`: an administrator edits an item; an unknown id answers 404 and changes nothing. */
  method UpdateItem(db: Database, id: int, body: ItemBody, caller: Option<UserRow>) returns (r: Outcome<Reply<()>>)
    requires db.Valid()
    modifies db`items
    ensures db.Valid()
    ensures !IsAdmin(caller) ==> r == Raised(AdminCheck(caller).value) && db.items == old(db.items)
    ensures IsAdmin(caller) && ItemAt(old(db.items), id).None? ==>
              r == Respond(ItemMissing(id), 404) && db.items == old(db.items)
    ensures IsAdmin(caller) && ItemAt(old(db.items), id).Some? ==>
              var i := ItemAt(old(db.items), id).value;
              r == Respond(Success("Menu item " + ShowInt(id) + " has been updated", map[]), 200)
              && db.items == old(db.items)[i := ApplyItemPatch(old(db.items)[i], body)]
  {
    var guard := AdminCheck(caller);
    if guard.Some? {
      return Raised(guard.value);
    }
    var found := ItemAt(db.items, id);
    if found.None? {
      return Respond(ItemMissing(id), 404);
    }
    var i := found.value;
    var item := ApplyItemPatch(db.items[i], body);
    db.ReplaceItem(i, item);
    r := Respond(Success("Menu item " + ShowInt(id) + " has been updated", map[]), 200);
  }

  /** `delete_item`: the item with that id is removed, and only it; an unknown id answers 404. */
  method DeleteItem(db: Database, id: int) returns (r: Outcome<Reply<()>>)
    requires db.Valid()
    modifies db`items
    ensures db.Valid()
    ensures ItemAt(old(db.items), id).None? ==> r == Respond(ItemMissing(id), 404) && db.items == old(db.items)
    ensures ItemAt(old(db.items), id).Some? ==>
              r == Respond(Success("Menu item with id " + ShowInt(id) + " has been deleted", map[]), 200)
              && db.items == RemoveAt(old(db.items), ItemAt(old(db.items), id).value)
              && (forall j :: 0 <= j < |db.items| ==> db.items[j].id != id)
  {
    var found := ItemAt(db.items, id);
    if found.None? {
      return Respond(ItemMissing(id), 404);
    }
    db.RemoveItem(found.value);
    r := Respond(Success("Menu item with id " + ShowInt(id) + " has been deleted", map[]), 200);
  }

  /** The message of the first required field missing from the body, in the order course, description, gluten_free, vegetarian. */
  function MissingField(body: ItemBody): (r: Option<Message>)
    ensures r.None? <==> body.course.Some? && body.description.Some? && body.glutenFree.Some? && body.vegetarian.Some?
    ensures body.course.None? ==> r == Some(Fail("The course value is required", map[]))
    ensures body.course.Some? && body.description.None? ==> r == Some(Fail("The description value is required", map[]))
    ensures body.course.Some? && body.description.Some? && body.glutenFree.None? ==>
              r == Some(Fail("The gluten_free value is required", map[]))
    ensures body.course.Some? && body.description.Some? && body.glutenFree.Some? && body.vegetarian.None? ==>
              r == Some(Fail("The vegetarian value is required", map[]))
  {
    if body.course.None? then Some(Fail("The course value is required", map[]))
    else if body.description.None? then Some(Fail("The description value is required", map[]))
    else if body.glutenFree.None? then Some(Fail("The gluten_free value is required", map[]))
    else if body.vegetarian.None? then Some(Fail("The vegetarian value is required", map[]))
    else None
  }

  /**
   * `create_item`: the first missing required field answers 400 and nothing is created;
   * otherwise a new item with the next id holds exactly the given values, the additional
   * information being optional.
   */
  method CreateItem(db: Database, body: ItemBody) returns (r: Outcome<Reply<()>>)
    requires db.Valid()
    modifies db`items, db`nextItemId
    ensures db.Valid()
    ensures MissingField(body).Some? ==>
              r == Respond(MissingField(body).value, 400) && db.items == old(db.items) && db.nextItemId == old(db.nextItemId)
    ensures MissingField(body).None? ==>
              r == Respond(Success("The menu item has been created", map[]), 200)
              && db.items == old(db.items) + [MenuItem(old(db.nextItemId), body.course.value, body.description.value,
                                                       body.glutenFree.value, body.vegetarian.value, body.additionalInfo)]
              && db.nextItemId == old(db.nextItemId) + 1
  {
    var missing := MissingField(body);
    if missing.Some? {
      return Respond(missing.value, 400);
    }
    var item := MenuItem(db.nextItemId, body.course.value, body.description.value,
                         body.glutenFree.value, body.vegetarian.value, body.additionalInfo);
    db.AppendItem(item);
    r := Respond(Success("The menu item has been created", map[]), 200);
  }
}
