/**
 * The user handlers of wedding/user.py: answering an invitation, editing one's own profile,
 * searching users, and the administrator's read, edit and delete of any user.
 */
module UserApi {
  import opened Wrappers
  import opened Query
  import opened Models
  import opened Utils

  /** The body of `patch_me` / `patch_user`: an absent key is `None`. */
  datatype UserPatch = UserPatch(
    email: Option<string>, firstname: Option<string>, lastname: Option<string>, admin: Option<bool>)

  /** `body["invitation"]` of `submit_invitation`. */
  datatype InvitationAnswer = InvitationAnswer(response: string, requirements: Option<string>)

  /** One entry of `body["guests"]`. */
  datatype GuestAnswer = GuestAnswer(
    id: int, isComing: bool, firstCourse: Option<int>, mainCourse: Option<int>, desertCourse: Option<int>)

  /** The body of `submit_invitation`. */
  datatype Submission = Submission(invitation: InvitationAnswer, guests: seq<GuestAnswer>)

  const Saved := Success("Your response has been saved", map[])

  function UserMissing(id: int): Message {
    Fail("User with ID " + ShowInt(id) + " does not exist.", map[])
  }

  // ---------------------------------------------------------------------------------------
  // submit_invitation

  /** `_process_invitation`: the invitation is confirmed and the requirements copied; nothing else changes. */
  function ProcessInvitation(inv: Invitation, data: InvitationAnswer): (r: Invitation)
    ensures r.response == Confirmed && r.requirements == data.requirements
    ensures r.kind == inv.kind && r.plusOne == inv.plusOne && r.plusOneName == inv.plusOneName
    ensures r.locked == inv.locked
  {
    inv.(response := Confirmed, requirements := data.requirements)
  }

  /** The answer `a` is about guest `g` of group `gid` (`x.id == gd["id"]` over `ig.guests`). */
  predicate Answers(g: GuestRow, gid: int, a: GuestAnswer) {
    g.groupId == Some(gid) && g.id == a.id
  }

  /** Two rows are the same guest: identity, name, group and related account agree. */
  predicate SameGuest(x: GuestRow, y: GuestRow) {
    x.id == y.id && x.name == y.name && x.groupId == y.groupId && x.user == y.user
  }

  /** One iteration of `_process_guests` on the guest it found. */
  function Answered(g: GuestRow, a: GuestAnswer): (r: GuestRow)
    ensures SameGuest(r, g) && r.isComing == Some(a.isComing)
    ensures a.isComing ==>
              r.firstCourse == a.firstCourse && r.mainCourse == a.mainCourse && r.desertCourse == a.desertCourse
    ensures !a.isComing ==>
              r.firstCourse == g.firstCourse && r.mainCourse == g.mainCourse && r.desertCourse == g.desertCourse
  {
    if a.isComing then
      g.(isComing := Some(true), firstCourse := a.firstCourse, mainCourse := a.mainCourse, desertCourse := a.desertCourse)
    else
      g.(isComing := Some(false))
  }

  /** One answer applied to the guest table; `None` when the group has no guest with that id (`[0]` of an empty list). */
  function ApplyAnswer(rows: seq<GuestRow>, gid: int, a: GuestAnswer): (r: Option<seq<GuestRow>>)
    ensures r.None? <==> forall j :: 0 <= j < |rows| ==> !Answers(rows[j], gid, a)
    ensures r.Some? ==> exists k :: 0 <= k < |rows| && Answers(rows[k], gid, a) && r.value == rows[k := Answered(rows[k], a)]
  {
    match FindFirst(rows, (g: GuestRow) => Answers(g, gid, a))
    case None => None
    case Some(k) => Some(rows[k := Answered(rows[k], a)])
  }

  /** The guest table after `_process_guests` has gone through `answers` in order. */
  function AnswersApplied(rows: seq<GuestRow>, gid: int, answers: seq<GuestAnswer>): (r: Option<seq<GuestRow>>)
    decreases |answers|
    ensures r.Some? ==> |r.value| == |rows|
    ensures r.Some? ==> forall j :: 0 <= j < |rows| ==> SameGuest(r.value[j], rows[j])
  {
    if |answers| == 0 then Some(rows)
    else match AnswersApplied(rows, gid, answers[..|answers| - 1])
      case None => None
      case Some(prev) => ApplyAnswer(prev, gid, answers[|answers| - 1])
  }

  /** Once an answer names an unknown guest, the rest of the loop never runs. */
  lemma {:induction false} AnswersAppliedNoneSticks(rows: seq<GuestRow>, gid: int, answers: seq<GuestAnswer>, k: nat)
    requires k <= |answers| && AnswersApplied(rows, gid, answers[..k]).None?
    ensures AnswersApplied(rows, gid, answers).None?
    decreases |answers| - k
  {
    if k < |answers| {
      assert answers[..k + 1][..k] == answers[..k];
      AnswersAppliedNoneSticks(rows, gid, answers, k + 1);
    } else {
      assert answers[..k] == answers;
    }
  }

  /** One more answer: the table after `k + 1` answers is answer `k` applied to the table after `k`. */
  lemma AnswersAppliedStep(rows: seq<GuestRow>, gid: int, answers: seq<GuestAnswer>, k: nat, prev: seq<GuestRow>)
    requires k < |answers| && AnswersApplied(rows, gid, answers[..k]) == Some(prev)
    ensures AnswersApplied(rows, gid, answers[..k + 1]) == ApplyAnswer(prev, gid, answers[k])
  {
    assert answers[..k + 1][..k] == answers[..k];
  }

  /**
   * `_process_guests`: each answer sets its guest's `is_coming`, and its courses when the
   * guest is coming; an answer for a guest not in the group raises `IndexError`. The
   * method works on the rows and returns them; the caller writes them back.
   */
  method ProcessGuests(rows: seq<GuestRow>, gid: int, answers: seq<GuestAnswer>) returns (r: Option<seq<GuestRow>>)
    ensures r == AnswersApplied(rows, gid, answers)
  {
    var current := rows;
    var k := 0;
    while k < |answers|
      invariant 0 <= k <= |answers|
      invariant AnswersApplied(rows, gid, answers[..k]) == Some(current)
    {
      var a := answers[k];
      AnswersAppliedStep(rows, gid, answers, k, current);
      var found := FindFirst(current, (g: GuestRow) => Answers(g, gid, a));
      if found.None? {
        AnswersAppliedNoneSticks(rows, gid, answers, k + 1);
        return None;
      }
      current := current[found.value := Answered(current[found.value], a)];
      k := k + 1;
    }
    assert answers[..k] == answers;
    r := Some(current);
  }

  /** The group has a guest with this id. */
  predicate InGroup(rows: seq<GuestRow>, gid: int, id: int) {
    exists j :: 0 <= j < |rows| && rows[j].groupId == Some(gid) && rows[j].id == id
  }

  /** Some answer names a guest the group does not have. */
  predicate NamesUnknownGuest(rows: seq<GuestRow>, gid: int, answers: seq<GuestAnswer>) {
    exists k :: 0 <= k < |answers| && !InGroup(rows, gid, answers[k].id)
  }

  /** An unknown guest among `answers` is one among all but the last answer, or the last answer's. */
  lemma NamesUnknownGuestSplit(rows: seq<GuestRow>, gid: int, answers: seq<GuestAnswer>)
    requires |answers| > 0
    ensures NamesUnknownGuest(rows, gid, answers)
            <==> NamesUnknownGuest(rows, gid, answers[..|answers| - 1]) || !InGroup(rows, gid, answers[|answers| - 1].id)
  {
    var init := answers[..|answers| - 1];
    assert forall k :: 0 <= k < |init| ==> init[k] == answers[k];
  }

  /** On a table holding the same guests, an answer finds its guest exactly when the group has it. */
  lemma ApplyAnswerFindsGroupGuest(prev: seq<GuestRow>, rows: seq<GuestRow>, gid: int, a: GuestAnswer)
    requires |prev| == |rows| && forall j :: 0 <= j < |rows| ==> SameGuest(prev[j], rows[j])
    ensures ApplyAnswer(prev, gid, a).None? <==> !InGroup(rows, gid, a.id)
  {
    if InGroup(rows, gid, a.id) {
      var j :| 0 <= j < |rows| && rows[j].groupId == Some(gid) && rows[j].id == a.id;
      assert SameGuest(prev[j], rows[j]);
      assert Answers(prev[j], gid, a);
    }
  }

  /** Processing the answers fails exactly when some answer names a guest the group does not have. */
  lemma {:induction false} AnswersFailIffUnknownGuest(rows: seq<GuestRow>, gid: int, answers: seq<GuestAnswer>)
    ensures AnswersApplied(rows, gid, answers).None? <==> NamesUnknownGuest(rows, gid, answers)
    decreases |answers|
  {
    if |answers| > 0 {
      var n := |answers| - 1;
      AnswersFailIffUnknownGuest(rows, gid, answers[..n]);
      NamesUnknownGuestSplit(rows, gid, answers);
      match AnswersApplied(rows, gid, answers[..n])
      case None =>
      case Some(prev) =>
        ApplyAnswerFindsGroupGuest(prev, rows, gid, answers[n]);
    }
  }

  /** A guest no answer is about leaves `_process_guests` exactly as it was. */
  lemma {:induction false} UnlistedGuestUnchanged(rows: seq<GuestRow>, gid: int, answers: seq<GuestAnswer>, j: nat)
    requires j < |rows| && AnswersApplied(rows, gid, answers).Some?
    requires forall k :: 0 <= k < |answers| ==> !Answers(rows[j], gid, answers[k])
    ensures AnswersApplied(rows, gid, answers).value[j] == rows[j]
    decreases |answers|
  {
    if |answers| > 0 {
      var n := |answers| - 1;
      var init := answers[..n];
      assert forall k :: 0 <= k < n ==> init[k] == answers[k];
      UnlistedGuestUnchanged(rows, gid, init, j);
      var prev := AnswersApplied(rows, gid, init).value;
      assert SameGuest(prev[j], rows[j]);
      assert !Answers(prev[j], gid, answers[n]);
    }
  }

  /** A guest's courses change only through an answer saying the guest is coming. */
  lemma {:induction false} CoursesChangeOnlyWhenComing(rows: seq<GuestRow>, gid: int, answers: seq<GuestAnswer>, j: nat)
    requires j < |rows| && AnswersApplied(rows, gid, answers).Some?
    requires forall k :: 0 <= k < |answers| && Answers(rows[j], gid, answers[k]) ==> !answers[k].isComing
    ensures var g := AnswersApplied(rows, gid, answers).value[j];
            g.firstCourse == rows[j].firstCourse && g.mainCourse == rows[j].mainCourse
            && g.desertCourse == rows[j].desertCourse
    decreases |answers|
  {
    if |answers| > 0 {
      var n := |answers| - 1;
      var init := answers[..n];
      assert forall k :: 0 <= k < n ==> init[k] == answers[k];
      CoursesChangeOnlyWhenComing(rows, gid, init, j);
      var prev := AnswersApplied(rows, gid, init).value;
      assert SameGuest(prev[j], rows[j]);
    }
  }

  /**
   * With guest ids unique, the last answer about a guest decides its `is_coming`, and its
   * courses when it is coming.
   */
  lemma LastAnswerDecides(rows: seq<GuestRow>, gid: int, answers: seq<GuestAnswer>, j: nat)
    requires GuestIdsUnique(rows)
    requires j < |rows| && |answers| > 0 && AnswersApplied(rows, gid, answers).Some?
    requires Answers(rows[j], gid, answers[|answers| - 1])
    ensures var g := AnswersApplied(rows, gid, answers).value[j];
            var a := answers[|answers| - 1];
            g.isComing == Some(a.isComing)
            && (a.isComing ==> g.firstCourse == a.firstCourse && g.mainCourse == a.mainCourse
                               && g.desertCourse == a.desertCourse)
  {
    var n := |answers| - 1;
    var prev := AnswersApplied(rows, gid, answers[..n]).value;
    var a := answers[n];
    var k :| 0 <= k < |prev| && Answers(prev[k], gid, a)
             && AnswersApplied(rows, gid, answers).value == prev[k := Answered(prev[k], a)];
    assert SameGuest(prev[k], rows[k]) && SameGuest(prev[j], rows[j]);
    assert k == j;
  }

  /**
   * The group of the caller's associated guest (`user.associated_guest.invitation_group`);
   * `None` wherever the source reads an attribute of `None`.
   */
  function InvitationGroupOf(guests: seq<GuestRow>, groups: seq<GroupRow>, uid: int): (r: Option<nat>)
    ensures r.Some? ==> r.value < |groups|
    ensures r.Some? ==> AssociatedGuest(guests, uid).Some?
                        && guests[AssociatedGuest(guests, uid).value].groupId == Some(groups[r.value].id)
    ensures r.None? <==>
              AssociatedGuest(guests, uid).None?
              || var gid := guests[AssociatedGuest(guests, uid).value].groupId;
                 gid.None? || forall j :: 0 <= j < |groups| ==> groups[j].id != gid.value
  {
    match AssociatedGuest(guests, uid)
    case None => None
    case Some(k) =>
      match guests[k].groupId
      case None => None
      case Some(gid) => GroupAt(groups, gid)
  }

  /** The group after `submit_invitation` declined its invitation. */
  function Declined(g: GroupRow): GroupRow {
    g.(invitation := g.invitation.(response := ResponseType.Declined))
  }

  /**
   * `submit_invitation`: "DECLINED" marks the invitation declined and touches no guest;
   * any other response confirms it, copies the requirements and processes the guests'
   * answers. An exception before the commit leaves the tables as they were.
   */
  method SubmitInvitation(db: Database, body: Submission, caller: Option<UserRow>) returns (r: Outcome<Reply<()>>)
    requires db.Valid()
    modifies db`groups, db`guests
    ensures db.Valid()
    ensures caller.None? ==>
              r == Raised(AttributeError) && db.groups == old(db.groups) && db.guests == old(db.guests)
    ensures caller.Some? && InvitationGroupOf(old(db.guests), old(db.groups), caller.value.id).None? ==>
              r == Raised(AttributeError) && db.groups == old(db.groups) && db.guests == old(db.guests)
    ensures caller.Some? && InvitationGroupOf(old(db.guests), old(db.groups), caller.value.id).Some? ==>
              var gi := InvitationGroupOf(old(db.guests), old(db.groups), caller.value.id).value;
              var g := old(db.groups)[gi];
              if body.invitation.response == "DECLINED" then
                r == Respond(Saved, 200) && db.groups == old(db.groups)[gi := Declined(g)]
                && db.guests == old(db.guests)
              else
                match AnswersApplied(old(db.guests), g.id, body.guests)
                case None => r == Raised(IndexError) && db.groups == old(db.groups) && db.guests == old(db.guests)
                case Some(rows) =>
                  r == Respond(Saved, 200) && db.guests == rows
                  && db.groups == old(db.groups)[gi := g.(invitation := ProcessInvitation(g.invitation, body.invitation))]
  {
    if caller.None? {
      return Raised(AttributeError);
    }
    var found := InvitationGroupOf(db.guests, db.groups, caller.value.id);
    if found.None? {
      return Raised(AttributeError);
    }
    var gi := found.value;
    var g := db.groups[gi];
    var updated: GroupRow;
    if body.invitation.response == "DECLINED" {
      updated := Declined(g);
    } else {
      var rows := ProcessGuests(db.guests, g.id, body.guests);
      if rows.None? {
        return Raised(IndexError);
      }
      assert forall j :: 0 <= j < |rows.value| ==> rows.value[j].id == db.guests[j].id;
      db.ReplaceGuests(rows.value);
      updated := g.(invitation := ProcessInvitation(g.invitation, body.invitation));
    }
    db.ReplaceGroup(gi, updated);
    r := Respond(Saved, 200);
  }

  // ---------------------------------------------------------------------------------------
  // Profile edits

  /** `patch_me`'s field merge: a key present in the body replaces the field, an absent key keeps it. */
  function ApplyProfilePatch(u: UserRow, body: UserPatch): (r: UserRow)
    ensures body.email.None? ==> r.email == u.email
    ensures body.email.Some? ==> r.email == body.email.value
    ensures body.firstname.None? ==> r.firstname == u.firstname
    ensures body.firstname.Some? ==> r.firstname == body.firstname.value
    ensures body.lastname.None? ==> r.lastname == u.lastname
    ensures body.lastname.Some? ==> r.lastname == body.lastname.value
    ensures r.(email := u.email, firstname := u.firstname, lastname := u.lastname) == u
  {
    u.(email := body.email.GetOr(u.email), firstname := body.firstname.GetOr(u.firstname),
       lastname := body.lastname.GetOr(u.lastname))
  }

  /**
   * `patch_user`'s field merge: as `patch_me`, and the admin flag too, unless the caller is
   * editing their own record.
   */
  function ApplyUserPatch(u: UserRow, body: UserPatch, editsSelf: bool): (r: UserRow)
    ensures r.(admin := u.admin) == ApplyProfilePatch(u, body)
    ensures editsSelf || body.admin.None? ==> r.admin == u.admin
    ensures !editsSelf && body.admin.Some? ==> r.admin == body.admin.value
  {
    var p := ApplyProfilePatch(u, body);
    if editsSelf then p else p.(admin := body.admin.GetOr(u.admin))
  }

  /**
   * `patch_me`: the caller's own record gets the body's email and names; a new email
   * already used by another account fails the commit and changes nothing.
   */
  method PatchMe(db: Database, body: UserPatch, caller: Option<UserRow>) returns (r: Outcome<Reply<()>>)
    requires db.Valid()
    requires caller.Some? ==> caller.value in db.users
    modifies db`users
    ensures db.Valid()
    ensures caller.None? ==> r == Raised(AttributeError) && db.users == old(db.users)
    ensures caller.Some? ==>
              UserAt(old(db.users), caller.value.id).Some? &&
              var i := UserAt(old(db.users), caller.value.id).value;
              var patched := old(db.users)[i := ApplyProfilePatch(old(db.users)[i], body)];
              if EmailsUnique(patched) then
                r == Respond(Success("User profile updated successfully", map[]), 200) && db.users == patched
              else
                r == Raised(IntegrityError) && db.users == old(db.users)
  {
    if caller.None? {
      return Raised(AttributeError);
    }
    var i := UserAt(db.users, caller.value.id).value;
    var u := ApplyProfilePatch(db.users[i], body);
    var patched := db.users[i := u];
    if !EmailsUnique(patched) {
      return Raised(IntegrityError);
    }
    db.ReplaceUser(i, u);
    r := Respond(Success("User profile updated successfully", map[]), 200);
  }

  /**
   * `patch_user`: an administrator edits any user; an unknown id answers 404 and changes
   * nothing; the admin flag is never changed on the caller's own record.
   */
  method PatchUser(db: Database, userId: int, body: UserPatch, caller: Option<UserRow>) returns (r: Outcome<Reply<()>>)
    requires db.Valid()
    modifies db`users
    ensures db.Valid()
    ensures !IsAdmin(caller) ==> r == Raised(AdminCheck(caller).value) && db.users == old(db.users)
    ensures IsAdmin(caller) && UserAt(old(db.users), userId).None? ==>
              r == Respond(UserMissing(userId), 404) && db.users == old(db.users)
    ensures IsAdmin(caller) && UserAt(old(db.users), userId).Some? ==>
              var i := UserAt(old(db.users), userId).value;
              var u := ApplyUserPatch(old(db.users)[i], body, caller.value.id == old(db.users)[i].id);
              var patched := old(db.users)[i := u];
              if EmailsUnique(patched) then
                r == Respond(Success("User '" + Fullname(u) + "' (" + ShowInt(userId) + ") has been updated", map[]), 200)
                && db.users == patched
              else
                r == Raised(IntegrityError) && db.users == old(db.users)
  {
    var guard := AdminCheck(caller);
    if guard.Some? {
      return Raised(guard.value);
    }
    var found := UserAt(db.users, userId);
    if found.None? {
      return Respond(UserMissing(userId), 404);
    }
    var i := found.value;
    var u := ApplyUserPatch(db.users[i], body, caller.value.id == db.users[i].id);
    var patched := db.users[i := u];
    if !EmailsUnique(patched) {
      return Raised(IntegrityError);
    }
    db.ReplaceUser(i, u);
    r := Respond(Success("User '" + Fullname(u) + "' (" + ShowInt(userId) + ") has been updated", map[]), 200);
  }

  /** An administrator editing their own record keeps the admin flag, whatever the body says. */
  lemma SelfEditKeepsAdmin(u: UserRow, body: UserPatch)
    ensures ApplyUserPatch(u, body, true).admin == u.admin
    ensures ApplyUserPatch(u, body, true) == ApplyProfilePatch(u, body)
  {
  }

  // ---------------------------------------------------------------------------------------
  // Search, read and delete

  /** `q` occurs in `s` at position `k`. */
  predicate OccursAt(s: string, q: string, k: int) {
    0 <= k && k + |q| <= |s| && s[k..k + |q|] == q
  }

  /** `q` occurs in `s` (SQL `LIKE '%q%'`). */
  predicate Contains(s: string, q: string) {
    exists k :: 0 <= k <= |s| - |q| && OccursAt(s, q, k)
  }

  /**
   * `find_user`: the users whose full name contains `q`, only those with no associated
   * guest when `orphaned`; no match at all raises `IndexError` (the source reads `a[0]`).
   */
  function FindUser(db: Database, q: string, orphaned: bool): (r: Outcome<seq<UserRow>>)
    reads db
    ensures r.Raised? <==> forall j :: 0 <= j < |db.users| ==> !Contains(Fullname(db.users[j]), q)
    ensures r.Raised? ==> r.failure == IndexError
    ensures r.Returned? ==>
              forall j :: 0 <= j < |r.value| ==> r.value[j] in db.users && Contains(Fullname(r.value[j]), q)
    ensures r.Returned? && orphaned ==>
              forall j :: 0 <= j < |r.value| ==> AssociatedGuest(db.guests, r.value[j].id).None?
    ensures r.Returned? ==>
              forall j :: 0 <= j < |db.users| && Contains(Fullname(db.users[j]), q)
                          && (!orphaned || AssociatedGuest(db.guests, db.users[j].id).None?)
                          ==> db.users[j] in r.value
  {
    var guests := db.guests;
    var matches := Filter(db.users, (u: UserRow) => Contains(Fullname(u), q));
    if |matches| == 0 then Raised(IndexError)
    else if orphaned then Returned(Filter(matches, (u: UserRow) => AssociatedGuest(guests, u.id).None?))
    else Returned(matches)
  }

  /** `get_user`: the user with that id, or 404; administrators only. */
  function GetUser(db: Database, userId: int, caller: Option<UserRow>): (r: Outcome<Reply<UserRow>>)
    reads db
    ensures !IsAdmin(caller) ==> r == Raised(AdminCheck(caller).value)
    ensures IsAdmin(caller) && UserAt(db.users, userId).None? ==> r == Respond(UserMissing(userId), 404)
    ensures IsAdmin(caller) && UserAt(db.users, userId).Some? ==>
              r.Returned? && r.value.status == 200 && r.value.body.Data?
              && r.value.body.value in db.users && r.value.body.value.id == userId
  {
    var users := db.users;
    AdminRequired(caller, (admin: UserRow) =>
      match UserAt(users, userId)
      case None => Respond(UserMissing(userId), 404)
      case Some(i) => Returned(Reply(Data(users[i]), 200)))
  }

  /** The guest table once the user `uid` is deleted: guests related to it lose the relation. */
  function DetachUser(guests: seq<GuestRow>, uid: int): (r: seq<GuestRow>)
    ensures |r| == |guests|
    ensures forall j :: 0 <= j < |guests| ==>
              r[j] == if guests[j].user == Some(uid) then guests[j].(user := None) else guests[j]
  {
    MapRows(guests, (g: GuestRow) => if g.user == Some(uid) then g.(user := None) else g)
  }

  /**
   * `delete_user`: an administrator deletes the user with that id; guests related to it
   * lose the relation; an unknown id answers 404 and changes nothing.
   */
  method DeleteUser(db: Database, userId: int, caller: Option<UserRow>) returns (r: Outcome<Reply<()>>)
    requires db.Valid()
    modifies db`users, db`guests
    ensures db.Valid()
    ensures !IsAdmin(caller) ==>
              r == Raised(AdminCheck(caller).value) && db.users == old(db.users) && db.guests == old(db.guests)
    ensures IsAdmin(caller) && UserAt(old(db.users), userId).None? ==>
              r == Respond(UserMissing(userId), 404) && db.users == old(db.users) && db.guests == old(db.guests)
    ensures IsAdmin(caller) && UserAt(old(db.users), userId).Some? ==>
              r == Respond(Success("User '" + ShowInt(userId) + "'' has been deleted", map[]), 204)
              && db.users == RemoveAt(old(db.users), UserAt(old(db.users), userId).value)
              && db.guests == DetachUser(old(db.guests), userId)
    // after a deletion no row refers to that user any more
    ensures IsAdmin(caller) && UserAt(old(db.users), userId).Some? ==>
              (forall j :: 0 <= j < |db.users| ==> db.users[j].id != userId)
              && (forall j :: 0 <= j < |db.guests| ==> db.guests[j].user != Some(userId))
  {
    var guard := AdminCheck(caller);
    if guard.Some? {
      return Raised(guard.value);
    }
    var found := UserAt(db.users, userId);
    if found.None? {
      return Respond(UserMissing(userId), 404);
    }
    var i := found.value;
    db.RemoveUser(i);
    db.ReplaceGuests(DetachUser(db.guests, userId));
    r := Respond(Success("User '" + ShowInt(userId) + "'' has been deleted", map[]), 204);
  }
}
