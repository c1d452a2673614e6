/** The board access middleware: given the board named by the request (or
    its absence), the caller and the roles the route requires, either pass
    the request on or answer 404 / 403. */
module BoardAccess {
  import opened Results
  import opened Model

  /** What a route hands the middleware: an array of roles (the default is
      the empty array), or a value that is not an array at all. */
  datatype RequiredRoles = Roles(roles: seq<Role>) | NotAnArray

  /** A list that actually restricts members: a non-empty array. */
  predicate Restricts(required: RequiredRoles) {
    required.Roles? && |required.roles| > 0
  }

  datatype Decision = Next | Deny(status: int)

  function CheckBoardAccess(board: Option<Board>, user: ObjectId, required: RequiredRoles): (d: Decision)
    ensures d == Deny(NOT_FOUND) <==> board.None?
    ensures d.Deny? ==> d.status == NOT_FOUND || d.status == FORBIDDEN
  {
    if board.None? then Deny(NOT_FOUND)
    else if board.value.owner == user then Next
    else
      var i := FindMember(board.value.members, user);
      if i == -1 then Deny(FORBIDDEN)
      else if Restricts(required) && board.value.members[i].role !in required.roles then Deny(FORBIDDEN)
      else Next
  }

  /** The owner passes whatever roles the route asks for. */
  lemma OwnerAlwaysAdmitted(b: Board, required: RequiredRoles)
    ensures CheckBoardAccess(Some(b), b.owner, required) == Next
  {
  }

  /** Someone who is neither the owner nor in the members list gets 403. */
  lemma OutsiderForbidden(b: Board, user: ObjectId, required: RequiredRoles)
    requires user != b.owner && !IsMember(b.members, user)
    ensures CheckBoardAccess(Some(b), user, required) == Deny(FORBIDDEN)
  {
  }

  /** With a non-empty role list, a member who is not the owner passes
      exactly when the role of their (first) entry is in the list. */
  lemma RoleListDecides(b: Board, user: ObjectId, roles: seq<Role>)
    requires user != b.owner && IsMember(b.members, user) && |roles| > 0
    ensures CheckBoardAccess(Some(b), user, Roles(roles)) == Next
            <==> b.members[FindMember(b.members, user)].role in roles
  {
  }

  /** With the default empty list, or with a value that is not an array,
      every member passes. */
  lemma UnrestrictedAdmitsMembers(b: Board, user: ObjectId, required: RequiredRoles)
    requires IsMember(b.members, user) && !Restricts(required)
    ensures CheckBoardAccess(Some(b), user, required) == Next
  {
  }

  /** Enlarging a non-empty role list never turns an admitted caller away. */
  lemma AccessMonotone(b: Board, user: ObjectId, roles: seq<Role>, more: seq<Role>)
    requires |roles| > 0
    requires forall r :: r in roles ==> r in more
    requires CheckBoardAccess(Some(b), user, Roles(roles)) == Next
    ensures CheckBoardAccess(Some(b), user, Roles(more)) == Next
  {
  }
}
