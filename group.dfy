/**
 * The invitation-group handlers of wedding/group.py: creating, editing, reading and
 * deleting groups, looking a group up by its registration code, and managing its guests
 * and their relation to user accounts.
 */
module GroupApi {
  import opened Wrappers
  import opened Query
  import opened Models
  import opened Utils

  /** `body["invitation"]` of `create_group`. */
  datatype InvitationPayload = InvitationPayload(kind: Option<InvitationType>, plusOne: Option<bool>)

  /** The body of `create_group`. */
  datatype GroupBody = GroupBody(invitation: Option<InvitationPayload>, name: Option<string>, code: Option<string>)

  /** `body["invitation"]` of `patch_group`: an absent key is `None`. */
  datatype InvitationPatch = InvitationPatch(
    response: Option<ResponseType>, kind: Option<InvitationType>, requirements: Option<string>, locked: Option<bool>)

  /** The body of `patch_group`. */
  datatype GroupPatch = GroupPatch(name: Option<string>, code: Option<string>, invitation: Option<InvitationPatch>)

  /** The body of `relate_user_and_guest` / `remove_relation_from_guest`. */
  datatype RelationBody = RelationBody(guestId: Option<int>, userId: Option<int>)

  /** What `find_by_registration_code` returns: the group and its guests not yet related to an account. */
  datatype GroupView = GroupView(id: int, name: string, registrationCode: string, guests: seq<GuestRow>)

  function GroupMissing(id: int): Message {
    Fail("Group '" + ShowInt(id) + "' does not exist", map[])
  }

  function GuestMissing(id: Option<int>): Message {
    Fail("Guest with id '" + ShowOptInt(id) + "' does not exist", map[])
  }

  /** The guests of group `gid` (`ig.guests`), in id order. */
  function GroupGuests(guests: seq<GuestRow>, gid: int): (r: seq<GuestRow>)
    ensures forall j :: 0 <= j < |r| ==> r[j] in guests && r[j].groupId == Some(gid)
    ensures forall j :: 0 <= j < |guests| && guests[j].groupId == Some(gid) ==> guests[j] in r
  {
    Filter(guests, (g: GuestRow) => g.groupId == Some(gid))
  }

  /** A guest appended to the table in group `gid` comes last in that group's guests, after all the others. */
  lemma GroupGuestsAppend(guests: seq<GuestRow>, gid: int, x: GuestRow)
    requires x.groupId == Some(gid)
    ensures GroupGuests(guests + [x], gid) == GroupGuests(guests, gid) + [x]
  {
    FilterAppend(guests, [x], (g: GuestRow) => g.groupId == Some(gid));
    assert [x][1..] == [];
  }

  // ---------------------------------------------------------------------------------------
  // Groups

  /** The invitation a new group starts with: the given type and plus-one (default false), no response yet. */
  function NewInvitation(kind: InvitationType, plusOne: Option<bool>): (r: Invitation)
    ensures r.kind == kind && r.response == NoResponse && !r.locked
    ensures r.requirements.None? && r.plusOneName.None?
    ensures plusOne.None? ==> !r.plusOne
    ensures plusOne.Some? ==> r.plusOne == plusOne.value
  {
    Invitation(kind, NoResponse, None, plusOne.GetOr(false), None, false)
  }

  /**
   * `create_group`: a new group with the next id, the given name and code, and a fresh
   * invitation. A body with no invitation raises `AttributeError`; a missing type, name
   * or code, or a name another group has, fails the commit and adds nothing.
   */
  method CreateGroup(db: Database, body: GroupBody, caller: Option<UserRow>) returns (r: Outcome<Reply<()>>)
    requires db.Valid()
    modifies db`groups, db`nextGroupId
    ensures db.Valid()
    ensures !IsAdmin(caller) ==>
              r == Raised(AdminCheck(caller).value) && db.groups == old(db.groups) && db.nextGroupId == old(db.nextGroupId)
    ensures IsAdmin(caller) && body.invitation.None? ==>
              r == Raised(AttributeError) && db.groups == old(db.groups) && db.nextGroupId == old(db.nextGroupId)
    ensures IsAdmin(caller) && body.invitation.Some?
            && (body.invitation.value.kind.None? || body.name.None? || body.code.None?
                || exists j :: 0 <= j < |old(db.groups)| && old(db.groups)[j].friendlyName == body.name.value) ==>
              r == Raised(IntegrityError) && db.groups == old(db.groups) && db.nextGroupId == old(db.nextGroupId)
    ensures IsAdmin(caller) && body.invitation.Some? && body.invitation.value.kind.Some?
            && body.name.Some? && body.code.Some?
            && (forall j :: 0 <= j < |old(db.groups)| ==> old(db.groups)[j].friendlyName != body.name.value) ==>
              r.Returned?
    ensures r.Returned? ==>
              IsAdmin(caller) && body.invitation.Some? && body.invitation.value.kind.Some?
              && body.name.Some? && body.code.Some?
              && r == Respond(Success("Group " + body.name.value + " has been created!", map[]), 201)
              && db.groups == old(db.groups) + [GroupRow(old(db.nextGroupId), body.name.value, body.code.value,
                                                         NewInvitation(body.invitation.value.kind.value, body.invitation.value.plusOne))]
              && db.nextGroupId == old(db.nextGroupId) + 1
  {
    var guard := AdminCheck(caller);
    if guard.Some? {
      return Raised(guard.value);
    }
    if body.invitation.None? {
      return Raised(AttributeError);
    }
    var payload := body.invitation.value;
    if payload.kind.None? || body.name.None? || body.code.None? {
      return Raised(IntegrityError);
    }
    var name := body.name.value;
    var taken := FindFirst(db.groups, (g: GroupRow) => g.friendlyName == name);
    if taken.Some? {
      return Raised(IntegrityError);
    }
    var group := GroupRow(db.nextGroupId, name, body.code.value, NewInvitation(payload.kind.value, payload.plusOne));
    db.AppendGroup(group);
    r := Respond(Success("Group " + name + " has been created!", map[]), 201);
  }

  /** `patch_group`'s merge into the invitation: each key present replaces its field; the plus-one is never touched. */
  function ApplyInvitationPatch(inv: Invitation, p: InvitationPatch): (r: Invitation)
    ensures p.response.None? ==> r.response == inv.response
    ensures p.response.Some? ==> r.response == p.response.value
    ensures p.kind.None? ==> r.kind == inv.kind
    ensures p.kind.Some? ==> r.kind == p.kind.value
    ensures p.requirements.None? ==> r.requirements == inv.requirements
    ensures p.requirements.Some? ==> r.requirements == p.requirements
    ensures p.locked.None? ==> r.locked == inv.locked
    ensures p.locked.Some? ==> r.locked == p.locked.value
    ensures r.plusOne == inv.plusOne && r.plusOneName == inv.plusOneName
  {
    inv.(response := p.response.GetOr(inv.response), kind := p.kind.GetOr(inv.kind),
         requirements := if p.requirements.Some? then p.requirements else inv.requirements,
         locked := p.locked.GetOr(inv.locked))
  }

  /** `patch_group`'s merge: name and code as given or kept; the invitation only when one is supplied. */
  function ApplyGroupPatch(g: GroupRow, body: GroupPatch): (r: GroupRow)
    ensures r.id == g.id
    ensures body.name.None? ==> r.friendlyName == g.friendlyName
    ensures body.name.Some? ==> r.friendlyName == body.name.value
    ensures body.code.None? ==> r.groupCode == g.groupCode
    ensures body.code.Some? ==> r.groupCode == body.code.value
    ensures body.invitation.None? ==> r.invitation == g.invitation
    ensures body.invitation.Some? ==> r.invitation == ApplyInvitationPatch(g.invitation, body.invitation.value)
    ensures r.invitation.plusOne == g.invitation.plusOne
  {
    GroupRow(g.id, body.name.GetOr(g.friendlyName), body.code.GetOr(g.groupCode),
             if body.invitation.Some? then ApplyInvitationPatch(g.invitation, body.invitation.value) else g.invitation)
  }

  /**
   * `patch_group`: an unknown id answers 404 and changes nothing; otherwise the merged group
   * is committed, unless its new name belongs to another group.
   */
  method PatchGroup(db: Database, groupId: int, body: GroupPatch, caller: Option<UserRow>) returns (r: Outcome<Reply<()>>)
    requires db.Valid()
    modifies db`groups
    ensures db.Valid()
    ensures !IsAdmin(caller) ==> r == Raised(AdminCheck(caller).value) && db.groups == old(db.groups)
    ensures IsAdmin(caller) && GroupAt(old(db.groups), groupId).None? ==>
              r == Respond(GroupMissing(groupId), 404) && db.groups == old(db.groups)
    ensures IsAdmin(caller) && GroupAt(old(db.groups), groupId).Some? ==>
              var i := GroupAt(old(db.groups), groupId).value;
              var g := ApplyGroupPatch(old(db.groups)[i], body);
              if GroupNamesUnique(old(db.groups)[i := g]) then
                r == Respond(Success("Group '" + g.friendlyName + "' updated", map[]), 200)
                && db.groups == old(db.groups)[i := g]
              else
                r == Raised(IntegrityError) && db.groups == old(db.groups)
  {
    var guard := AdminCheck(caller);
    if guard.Some? {
      return Raised(guard.value);
    }
    var found := GroupAt(db.groups, groupId);
    if found.None? {
      return Respond(GroupMissing(groupId), 404);
    }
    var i := found.value;
    var g := ApplyGroupPatch(db.groups[i], body);
    if !GroupNamesUnique(db.groups[i := g]) {
      return Raised(IntegrityError);
    }
    db.ReplaceGroup(i, g);
    r := Respond(Success("Group '" + g.friendlyName + "' updated", map[]), 200);
  }

  /** `get_group`: the group with that id, or 404; administrators only. */
  function GetGroup(db: Database, groupId: int, caller: Option<UserRow>): (r: Outcome<Reply<GroupRow>>)
    reads db
    ensures !IsAdmin(caller) ==> r == Raised(AdminCheck(caller).value)
    ensures IsAdmin(caller) && GroupAt(db.groups, groupId).None? ==> r == Respond(GroupMissing(groupId), 404)
    ensures IsAdmin(caller) && GroupAt(db.groups, groupId).Some? ==>
              r.Returned? && r.value.status == 200 && r.value.body.Data?
              && r.value.body.value in db.groups && r.value.body.value.id == groupId
  {
    var groups := db.groups;
    AdminRequired(caller, (admin: UserRow) =>
      match GroupAt(groups, groupId)
      case None => Respond(GroupMissing(groupId), 404)
      case Some(i) => Returned(Reply(Data(groups[i]), 200)))
  }

  /** Users of a deleted group lose their group. */
  function DetachUsersFromGroup(users: seq<UserRow>, gid: int): (r: seq<UserRow>)
    ensures |r| == |users|
    ensures forall j :: 0 <= j < |users| ==>
              r[j] == if users[j].groupId == Some(gid) then users[j].(groupId := None) else users[j]
  {
    MapRows(users, (u: UserRow) => if u.groupId == Some(gid) then u.(groupId := None) else u)
  }

  /** Guests of a deleted group lose their group. */
  function DetachGuestsFromGroup(guests: seq<GuestRow>, gid: int): (r: seq<GuestRow>)
    ensures |r| == |guests|
    ensures forall j :: 0 <= j < |guests| ==>
              r[j] == if guests[j].groupId == Some(gid) then guests[j].(groupId := None) else guests[j]
  {
    MapRows(guests, (g: GuestRow) => if g.groupId == Some(gid) then g.(groupId := None) else g)
  }

  /**
   * `delete_group`: the group and its invitation are deleted; its users and guests stay,
   * without a group. An unknown id answers 404 and changes nothing.
   */
  method DeleteGroup(db: Database, groupId: int, caller: Option<UserRow>) returns (r: Outcome<Reply<()>>)
    requires db.Valid()
    modifies db`groups, db`users, db`guests
    ensures db.Valid()
    ensures !IsAdmin(caller) || GroupAt(old(db.groups), groupId).None? ==>
              db.groups == old(db.groups) && db.users == old(db.users) && db.guests == old(db.guests)
    ensures !IsAdmin(caller) ==> r == Raised(AdminCheck(caller).value)
    ensures IsAdmin(caller) && GroupAt(old(db.groups), groupId).None? ==> r == Respond(GroupMissing(groupId), 404)
    ensures IsAdmin(caller) && GroupAt(old(db.groups), groupId).Some? ==>
              r == Respond(Success("Group '" + ShowInt(groupId) + "' has been deleted", map[]), 200)
              && db.groups == RemoveAt(old(db.groups), GroupAt(old(db.groups), groupId).value)
              && db.users == DetachUsersFromGroup(old(db.users), groupId)
              && db.guests == DetachGuestsFromGroup(old(db.guests), groupId)
    // after a deletion nothing refers to the group any more
    ensures IsAdmin(caller) && GroupAt(old(db.groups), groupId).Some? ==>
              (forall j :: 0 <= j < |db.groups| ==> db.groups[j].id != groupId)
              && (forall j :: 0 <= j < |db.users| ==> db.users[j].groupId != Some(groupId))
              && (forall j :: 0 <= j < |db.guests| ==> db.guests[j].groupId != Some(groupId))
  {
    var guard := AdminCheck(caller);
    if guard.Some? {
      return Raised(guard.value);
    }
    var found := GroupAt(db.groups, groupId);
    if found.None? {
      return Respond(GroupMissing(groupId), 404);
    }
    var i := found.value;
    db.RemoveGroup(i);
    db.ReplaceUsers(DetachUsersFromGroup(db.users, groupId));
    db.ReplaceGuests(DetachGuestsFromGroup(db.guests, groupId));
    r := Respond(Success("Group '" + ShowInt(groupId) + "' has been deleted", map[]), 200);
  }

  /**
   * `find_by_registration_code`, open to any caller: the first group with that code, with
   * only those of its guests not yet related to an account; 404 when no group has the code.
   */
  function FindByRegistrationCode(db: Database, code: string): (r: Outcome<Reply<GroupView>>)
    reads db
    ensures (forall j :: 0 <= j < |db.groups| ==> db.groups[j].groupCode != code) ==>
              r == Respond(Fail("Group with invitation code '" + code + "' doesn't exist. Please check and try again", map[]), 404)
    ensures r.Returned? && r.value.body.Data? ==>
              var v := r.value.body.value;
              r.value.status == 200 && v.registrationCode == code
              && (exists j :: 0 <= j < |db.groups| && db.groups[j].id == v.id && db.groups[j].friendlyName == v.name
                              && db.groups[j].groupCode == code)
              && (forall j :: 0 <= j < |v.guests| ==>
                    v.guests[j] in db.guests && v.guests[j].groupId == Some(v.id) && v.guests[j].user.None?)
              && (forall j :: 0 <= j < |db.guests| && db.guests[j].groupId == Some(v.id) && db.guests[j].user.None?
                    ==> db.guests[j] in v.guests)
    ensures (exists j :: 0 <= j < |db.groups| && db.groups[j].groupCode == code) ==> r.Returned? && r.value.body.Data?
  {
    match FindFirst(db.groups, (g: GroupRow) => g.groupCode == code)
    case None =>
      Respond(Fail("Group with invitation code '" + code + "' doesn't exist. Please check and try again", map[]), 404)
    case Some(i) =>
      var g := db.groups[i];
      var available := Filter(GroupGuests(db.guests, g.id), (x: GuestRow) => x.user.None?);
      Returned(Reply(Data(GroupView(g.id, g.friendlyName, g.groupCode, available)), DefaultStatus))
  }

  // ---------------------------------------------------------------------------------------
  // Guests of a group

  /** The `guest=guest.dump()` entry of the reply to `add_guest_to_group`. */
  function GuestDump(g: GuestRow): Json {
    JObj(map["id" := JInt(g.id), "name" := JStr(g.name)])
  }

  /**
   * `add_guest_to_group`: a missing or empty name is refused with a fail message (no
   * status, so 200) and nothing is added; otherwise a guest with that name and the next id
   * joins the group.
   */
  method AddGuestToGroup(db: Database, groupId: int, name: Option<string>, caller: Option<UserRow>)
    returns (r: Outcome<Reply<()>>)
    requires db.Valid()
    modifies db`guests, db`nextGuestId
    ensures db.Valid()
    ensures !IsAdmin(caller) ==>
              r == Raised(AdminCheck(caller).value) && db.guests == old(db.guests) && db.nextGuestId == old(db.nextGuestId)
    ensures IsAdmin(caller) && GroupAt(db.groups, groupId).None? ==>
              r == Respond(GroupMissing(groupId), 404) && db.guests == old(db.guests) && db.nextGuestId == old(db.nextGuestId)
    ensures IsAdmin(caller) && GroupAt(db.groups, groupId).Some? && (name.None? || name.value == "") ==>
              r == Respond(Fail("A guest name is requierd", map[]), DefaultStatus)
              && db.guests == old(db.guests) && db.nextGuestId == old(db.nextGuestId)
    ensures IsAdmin(caller) && GroupAt(db.groups, groupId).Some? && name.Some? && name.value != "" ==>
              var guest := GuestRow(old(db.nextGuestId), name.value, Some(groupId), None, None, None, None, None);
              r == Respond(Success("Guest '" + name.value + "' has been created", map["guest" := GuestDump(guest)]), DefaultStatus)
              && db.guests == old(db.guests) + [guest]
              && db.nextGuestId == old(db.nextGuestId) + 1
              // the group's guests grow by exactly this guest
              && GroupGuests(db.guests, groupId) == GroupGuests(old(db.guests), groupId) + [guest]
  {
    var guard := AdminCheck(caller);
    if guard.Some? {
      return Raised(guard.value);
    }
    if GroupAt(db.groups, groupId).None? {
      return Respond(GroupMissing(groupId), 404);
    }
    if name.None? || name.value == "" {
      return Respond(Fail("A guest name is requierd", map[]), DefaultStatus);
    }
    var guest := GuestRow(db.nextGuestId, name.value, Some(groupId), None, None, None, None, None);
    GroupGuestsAppend(db.guests, groupId, guest);
    db.AppendGuest(guest);
    r := Respond(Success("Guest '" + name.value + "' has been created", map["guest" := GuestDump(guest)]), DefaultStatus);
  }

  /**
   * `remove_guest_from_group`: with the group present, the guest with `guestId` is deleted,
   * whichever group it belongs to.
   */
  method RemoveGuestFromGroup(db: Database, groupId: int, guestId: int, caller: Option<UserRow>)
    returns (r: Outcome<Reply<()>>)
    requires db.Valid()
    modifies db`guests
    ensures db.Valid()
    ensures !IsAdmin(caller) ==> r == Raised(AdminCheck(caller).value) && db.guests == old(db.guests)
    ensures IsAdmin(caller) && GroupAt(db.groups, groupId).None? ==>
              r == Respond(GroupMissing(groupId), 404) && db.guests == old(db.guests)
    ensures IsAdmin(caller) && GroupAt(db.groups, groupId).Some? && GuestAt(old(db.guests), guestId).None? ==>
              r == Respond(GuestMissing(Some(guestId)), 404) && db.guests == old(db.guests)
    ensures IsAdmin(caller) && GroupAt(db.groups, groupId).Some? && GuestAt(old(db.guests), guestId).Some? ==>
              r == Respond(Success("Guest has been deleted", map[]), 200)
              && db.guests == RemoveAt(old(db.guests), GuestAt(old(db.guests), guestId).value)
              && forall j :: 0 <= j < |db.guests| ==> db.guests[j].id != guestId
  {
    var guard := AdminCheck(caller);
    if guard.Some? {
      return Raised(guard.value);
    }
    if GroupAt(db.groups, groupId).None? {
      return Respond(GroupMissing(groupId), 404);
    }
    var found := GuestAt(db.guests, guestId);
    if found.None? {
      return Respond(GuestMissing(Some(guestId)), 404);
    }
    db.RemoveGuest(found.value);
    r := Respond(Success("Guest has been deleted", map[]), 200);
  }

  /** `Guest.query.get(body.get("guest_id"))`: no id finds no guest. */
  function GuestFor(guests: seq<GuestRow>, id: Option<int>): Option<nat> {
    if id.None? then None else GuestAt(guests, id.value)
  }

  /** `User.query.get(body.get("user_id"))`. */
  function UserFor(users: seq<UserRow>, id: Option<int>): Option<nat> {
    if id.None? then None else UserAt(users, id.value)
  }

  /**
   * `relate_user_and_guest`: the guest's account becomes the user, once the group, the
   * guest and the user are all found; the first one missing answers 404.
   */
  method RelateUserAndGuest(db: Database, groupId: int, body: RelationBody, caller: Option<UserRow>)
    returns (r: Outcome<Reply<()>>)
    requires db.Valid()
    modifies db`guests
    ensures db.Valid()
    ensures !IsAdmin(caller) ==> r == Raised(AdminCheck(caller).value) && db.guests == old(db.guests)
    ensures IsAdmin(caller) && GroupAt(db.groups, groupId).None? ==>
              r == Respond(GroupMissing(groupId), 404) && db.guests == old(db.guests)
    ensures IsAdmin(caller) && GroupAt(db.groups, groupId).Some? && GuestFor(old(db.guests), body.guestId).None? ==>
              r == Respond(GuestMissing(body.guestId), 404) && db.guests == old(db.guests)
    ensures IsAdmin(caller) && GroupAt(db.groups, groupId).Some? && GuestFor(old(db.guests), body.guestId).Some?
            && UserFor(db.users, body.userId).None? ==>
              r == Respond(Fail("User with id '" + ShowOptInt(body.userId) + "' does not exist", map[]), 404)
              && db.guests == old(db.guests)
    ensures IsAdmin(caller) && GroupAt(db.groups, groupId).Some? && GuestFor(old(db.guests), body.guestId).Some?
            && UserFor(db.users, body.userId).Some? ==>
              var i := GuestFor(old(db.guests), body.guestId).value;
              var u := db.users[UserFor(db.users, body.userId).value];
              r == Respond(Success(Fullname(u) + " has been related to the guestname " + old(db.guests)[i].name, map[]), 200)
              && db.guests == old(db.guests)[i := old(db.guests)[i].(user := Some(u.id))]
  {
    var guard := AdminCheck(caller);
    if guard.Some? {
      return Raised(guard.value);
    }
    if GroupAt(db.groups, groupId).None? {
      return Respond(GroupMissing(groupId), 404);
    }
    var gi := GuestFor(db.guests, body.guestId);
    if gi.None? {
      return Respond(GuestMissing(body.guestId), 404);
    }
    var ui := UserFor(db.users, body.userId);
    if ui.None? {
      return Respond(Fail("User with id '" + ShowOptInt(body.userId) + "' does not exist", map[]), 404);
    }
    var i := gi.value;
    var u := db.users[ui.value];
    var guest := db.guests[i];
    var related := guest.(user := Some(u.id));
    db.ReplaceGuest(i, related);
    r := Respond(Success(Fullname(u) + " has been related to the guestname " + guest.name, map[]), 200);
  }

  /**
   * `remove_relation_from_guest`: the guest's account relation is cleared. A guest with no
   * account (or one whose account is gone) raises `AttributeError` reading its full name.
   */
  method RemoveRelationFromGuest(db: Database, groupId: int, body: RelationBody, caller: Option<UserRow>)
    returns (r: Outcome<Reply<()>>)
    requires db.Valid()
    modifies db`guests
    ensures db.Valid()
    ensures !IsAdmin(caller) ==> r == Raised(AdminCheck(caller).value) && db.guests == old(db.guests)
    ensures IsAdmin(caller) && GroupAt(db.groups, groupId).None? ==>
              r == Respond(GroupMissing(groupId), 404) && db.guests == old(db.guests)
    ensures IsAdmin(caller) && GroupAt(db.groups, groupId).Some? && GuestFor(old(db.guests), body.guestId).None? ==>
              r == Respond(GuestMissing(body.guestId), 404) && db.guests == old(db.guests)
    ensures IsAdmin(caller) && GroupAt(db.groups, groupId).Some? && GuestFor(old(db.guests), body.guestId).Some? ==>
              var g := old(db.guests)[GuestFor(old(db.guests), body.guestId).value];
              if g.user.None? || UserAt(db.users, g.user.value).None? then
                r == Raised(AttributeError) && db.guests == old(db.guests)
              else
                r == Respond(Success("The relationship between user " + Fullname(db.users[UserAt(db.users, g.user.value).value])
                                     + " and guest " + g.name + " as been removed", map[]), 200)
                && db.guests == old(db.guests)[GuestFor(old(db.guests), body.guestId).value := g.(user := None)]
  {
    var guard := AdminCheck(caller);
    if guard.Some? {
      return Raised(guard.value);
    }
    if GroupAt(db.groups, groupId).None? {
      return Respond(GroupMissing(groupId), 404);
    }
    var gi := GuestFor(db.guests, body.guestId);
    if gi.None? {
      return Respond(GuestMissing(body.guestId), 404);
    }
    var i := gi.value;
    var guest := db.guests[i];
    if guest.user.None? {
      return Raised(AttributeError);
    }
    var ui := UserAt(db.users, guest.user.value);
    if ui.None? {
      return Raised(AttributeError);
    }
    var fullname := Fullname(db.users[ui.value]);
    var unrelated := guest.(user := None);
    db.ReplaceGuest(i, unrelated);
    r := Respond(Success("The relationship between user " + fullname + " and guest " + guest.name + " as been removed", map[]), 200);
  }
}
