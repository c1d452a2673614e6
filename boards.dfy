/** The board controller with the database calls taken out: every handler
    receives the board it would have loaded (None when there is none), runs
    its guards and answers either with the edited board, which it would then
    save, or with an error status. */
module Boards {
  import opened Results
  import opened Model

  /** `x || fallback` on strings: the empty string (or a missing value) is
      falsy and gives way to the fallback. */
  function OrElse(x: string, fallback: string): (r: string)
    ensures r == x || r == fallback
    ensures r == "" ==> x == "" && fallback == ""
  {
    if x != "" then x else fallback
  }

  // ---------------------------------------------------------------------
  // Members and the admin count
  // ---------------------------------------------------------------------

  function AdminBit(m: BoardMember): nat {
    if m.role == Admin then 1 else 0
  }

  /** `members.filter(m => m.role === 'admin').length` */
  function AdminCount(ms: seq<BoardMember>): (n: nat)
    ensures n <= |ms|
    ensures n > 0 <==> exists k :: 0 <= k < |ms| && ms[k].role == Admin
  {
    if ms == [] then 0
    else
      assert forall k :: 1 <= k < |ms| ==> ms[k] == ms[1..][k - 1];
      AdminBit(ms[0]) + AdminCount(ms[1..])
  }

  lemma {:induction false} AdminCountConcat(a: seq<BoardMember>, b: seq<BoardMember>)
    ensures AdminCount(a + b) == AdminCount(a) + AdminCount(b)
  {
    if a == [] {
      assert a + b == b;
    } else {
      assert (a + b)[1..] == a[1..] + b;
      AdminCountConcat(a[1..], b);
    }
  }

  /** Replacing one entry changes the count by that entry alone. */
  lemma AdminCountUpdate(ms: seq<BoardMember>, i: nat, m: BoardMember)
    requires i < |ms|
    ensures AdminCount(ms[i := m]) == AdminCount(ms) - AdminBit(ms[i]) + AdminBit(m)
  {
    assert ms == ms[..i] + [ms[i]] + ms[i + 1..];
    assert ms[i := m] == ms[..i] + [m] + ms[i + 1..];
    AdminCountConcat(ms[..i] + [ms[i]], ms[i + 1..]);
    AdminCountConcat(ms[..i], [ms[i]]);
    AdminCountConcat(ms[..i] + [m], ms[i + 1..]);
    AdminCountConcat(ms[..i], [m]);
    assert AdminCount([m]) == AdminBit(m) by { assert [m][1..] == []; }
    assert AdminCount([ms[i]]) == AdminBit(ms[i]) by { assert [ms[i]][1..] == []; }
  }

  /** `members.filter(m => !m.userId.equals(u))`: every entry of `u` goes,
      every other entry stays with its multiplicity. */
  function WithoutUser(ms: seq<BoardMember>, u: ObjectId): (r: seq<BoardMember>)
    ensures |r| <= |ms|
    ensures forall m: BoardMember {:trigger multiset(r)[m]} :: multiset(r)[m] == if m.userId == u then 0 else multiset(ms)[m]
  {
    if ms == [] then []
    else
      var rest := WithoutUser(ms[1..], u);
      assert ms == [ms[0]] + ms[1..];
      assert multiset(ms) == multiset{ms[0]} + multiset(ms[1..]);
      if ms[0].userId == u then rest
      else
        assert multiset([ms[0]] + rest) == multiset{ms[0]} + multiset(rest);
        [ms[0]] + rest
  }

  /** The filter keeps the surviving entries in their order: filtering a
      concatenation filters each part. */
  lemma {:induction false} WithoutUserConcat(a: seq<BoardMember>, b: seq<BoardMember>, u: ObjectId)
    ensures WithoutUser(a + b, u) == WithoutUser(a, u) + WithoutUser(b, u)
  {
    if a == [] {
      assert a + b == b;
    } else {
      assert (a + b)[1..] == a[1..] + b;
      WithoutUserConcat(a[1..], b, u);
    }
  }

  lemma {:induction false} WithoutAbsentUser(ms: seq<BoardMember>, u: ObjectId)
    requires !IsMember(ms, u)
    ensures WithoutUser(ms, u) == ms
  {
    if ms != [] {
      assert !IsMember(ms[1..], u) by {
        assert forall k :: 0 <= k < |ms[1..]| ==> ms[1..][k] == ms[k + 1];
      }
      WithoutAbsentUser(ms[1..], u);
    }
  }

  /** With one entry per user, the filter of the head's user drops the head
      alone. */
  lemma WithoutHeadEntry(ms: seq<BoardMember>, u: ObjectId)
    requires DistinctMembers(ms) && ms != [] && ms[0].userId == u
    ensures WithoutUser(ms, u) == ms[1..]
  {
    var tail := ms[1..];
    assert !IsMember(tail, u) by {
      forall k | 0 <= k < |tail| ensures tail[k].userId != u {
        assert tail[k] == ms[k + 1];
      }
    }
    WithoutAbsentUser(tail, u);
    assert WithoutUser(ms, u) == WithoutUser(tail, u);
  }

  /** When every user has one entry, the filter removes exactly the entry
      `find` returns and keeps all the others in their order. */
  lemma {:induction false} WithoutSoleEntry(ms: seq<BoardMember>, u: ObjectId)
    requires DistinctMembers(ms) && IsMember(ms, u)
    ensures var i := FindMember(ms, u); WithoutUser(ms, u) == ms[..i] + ms[i + 1..]
  {
    var tail := ms[1..];
    if ms[0].userId == u {
      WithoutHeadEntry(ms, u);
    } else {
      var i := FindMember(ms, u);
      assert i == FindMember(tail, u) + 1;
      assert DistinctMembers(tail) by {
        forall p, q | 0 <= p < q < |tail| ensures tail[p].userId != tail[q].userId {
          assert tail[p] == ms[p + 1] && tail[q] == ms[q + 1];
        }
      }
      WithoutSoleEntry(tail, u);
      assert WithoutUser(tail, u) == tail[..i - 1] + tail[i..];
      assert WithoutUser(ms, u) == [ms[0]] + WithoutUser(tail, u);
      SlicesPastHead(ms, i);
      assert [ms[0]] + (tail[..i - 1] + tail[i..]) == ([ms[0]] + tail[..i - 1]) + tail[i..];
    }
  }

  /** Cutting at `i` past the head is cutting the tail at `i - 1`. */
  lemma SlicesPastHead<T>(s: seq<T>, i: nat)
    requires 1 <= i < |s|
    ensures s[..i] == [s[0]] + s[1..][..i - 1]
    ensures s[i + 1..] == s[1..][i..]
  {
    assert s[..i] == [s[0]] + s[1..][..i - 1];
  }

  /** A sequence is its prefix, the element at `i` and its suffix. */
  lemma SplitAt<T>(s: seq<T>, i: nat)
    requires i < |s|
    ensures s == s[..i] + [s[i]] + s[i + 1..]
  {
    assert s[i..] == [s[i]] + s[i + 1..];
    assert s == s[..i] + s[i..];
  }

  /** Removing the entry at `i` removes exactly its contribution to the
      admin count. */
  lemma AdminCountRemoveAt(ms: seq<BoardMember>, i: nat)
    requires i < |ms|
    ensures AdminCount(ms[..i] + ms[i + 1..]) == AdminCount(ms) - AdminBit(ms[i])
  {
    var front, m, back := ms[..i], ms[i], ms[i + 1..];
    SplitAt(ms, i);
    AdminCountConcat(front + [m], back);
    AdminCountConcat(front, [m]);
    AdminCountConcat(front, back);
    assert AdminCount([m]) == AdminBit(m) by { assert [m][1..] == []; }
  }

  /** Removing one entry keeps the other entries distinct. */
  lemma DistinctRemoveAt(ms: seq<BoardMember>, i: nat)
    requires i < |ms| && DistinctMembers(ms)
    ensures DistinctMembers(ms[..i] + ms[i + 1..])
  {
    var r := ms[..i] + ms[i + 1..];
    forall p, q | 0 <= p < q < |r| ensures r[p].userId != r[q].userId {
      var p' := if p < i then p else p + 1;
      var q' := if q < i then q else q + 1;
      assert r[p] == ms[p'] && r[q] == ms[q'];
    }
  }

  // ---------------------------------------------------------------------
  // Board handlers
  // ---------------------------------------------------------------------

  /** createBoard: the creator owns the board and is its first and only
      member, as an admin. A falsy organization id stands for "create a new
      organization", whose id is `newOrganizationId`. */
  function CreateBoard(
    creator: ObjectId, boardId: ObjectId, title: string, description: string,
    organizationId: ObjectId, newOrganizationId: ObjectId, background: string,
    columns: seq<Column>): (b: Board)
    ensures b.owner == creator && b.members == [BoardMember(creator, Admin)]
    ensures AdminCount(b.members) == 1 && DistinctMembers(b.members)
    ensures b.organizationId == (if organizationId == "" then newOrganizationId else organizationId)
    ensures b.title == title && b.columns == columns && !b.isArchived
    ensures b.id == boardId && b.description == description && b.background == background
  {
    var orgId := if organizationId == "" then newOrganizationId else organizationId;
    var b := Board(boardId, title, description, creator, orgId, [], columns, background, false);
    assert [BoardMember(creator, Admin)][1..] == [];
    b.(members := b.members + [BoardMember(creator, Admin)])
  }

  /** getBoard: 404 without a board; otherwise the owner and every member
      may read it and everyone else gets 403. */
  function GetBoard(found: Option<Board>, user: ObjectId): (r: Result<Board>)
    ensures found.None? ==> r == Err(NOT_FOUND)
    ensures found.Some? ==>
      (r == Ok(found.value) <==> found.value.owner == user || IsMember(found.value.members, user))
    ensures found.Some? && r.Err? ==> r.status == FORBIDDEN
  {
    if found.None? then Err(NOT_FOUND)
    else
      var b := found.value;
      var isMember := FindMember(b.members, user) != -1;
      if b.owner != user && !isMember then Err(FORBIDDEN) else Ok(b)
  }

  /** updateBoard: each of title, description and background is replaced
      when the request gives a non-empty value and kept otherwise; nothing
      else on the board changes. */
  function UpdateBoard(found: Option<Board>, title: string, description: string, background: string): (r: Result<Board>)
    ensures found.None? <==> r == Err(NOT_FOUND)
    ensures r.Ok? <==> found.Some?
    ensures r.Ok? ==> r.value.(title := found.value.title, description := found.value.description,
                               background := found.value.background) == found.value
    ensures r.Ok? && title != "" ==> r.value.title == title
    ensures r.Ok? && title == "" ==> r.value.title == found.value.title
    ensures r.Ok? && description != "" ==> r.value.description == description
    ensures r.Ok? && description == "" ==> r.value.description == found.value.description
    ensures r.Ok? && background != "" ==> r.value.background == background
    ensures r.Ok? && background == "" ==> r.value.background == found.value.background
  {
    if found.None? then Err(NOT_FOUND)
    else
      var b := found.value;
      Ok(b.(title := OrElse(title, b.title), description := OrElse(description, b.description),
            background := OrElse(background, b.background)))
  }

  /** archiveBoard: flips the archived flag and nothing else. */
  function ArchiveBoard(found: Option<Board>): (r: Result<Board>)
    ensures found.None? <==> r == Err(NOT_FOUND)
    ensures r.Ok? <==> found.Some?
    ensures r.Ok? ==> r.value.isArchived != found.value.isArchived
                      && r.value.(isArchived := found.value.isArchived) == found.value
  {
    if found.None? then Err(NOT_FOUND)
    else Ok(found.value.(isArchived := !found.value.isArchived))
  }

  /** Archiving twice gives back the board as it was. */
  lemma ArchiveTwiceRestores(b: Board)
    ensures ArchiveBoard(Some(ArchiveBoard(Some(b)).value)) == Ok(b)
  {
  }

  /** inviteBoardMember: 404 without a board or without a user for the
      e-mail, 400 when the user already has an entry, and otherwise exactly
      one entry appended, with role `member` unless the request names one. */
  function InviteBoardMember(found: Option<Board>, invitee: Option<ObjectId>, role: Option<Role>): (r: Result<Board>)
    ensures found.None? ==> r == Err(NOT_FOUND)
    ensures found.Some? && invitee.None? ==> r == Err(NOT_FOUND)
    ensures found.Some? && invitee.Some? ==>
      (r == Err(BAD_REQUEST) <==> IsMember(found.value.members, invitee.value))
    ensures r.Ok? <==> found.Some? && invitee.Some? && !IsMember(found.value.members, invitee.value)
    ensures r.Ok? ==>
      r.value == found.value.(members := found.value.members + [BoardMember(invitee.value, role.GetOr(Member))])
  {
    if found.None? then Err(NOT_FOUND)
    else if invitee.None? then Err(NOT_FOUND)
    else
      var b := found.value;
      if FindMember(b.members, invitee.value) != -1 then Err(BAD_REQUEST)
      else Ok(b.(members := b.members + [BoardMember(invitee.value, role.GetOr(Member))]))
  }

  /** An accepted invitation keeps entries distinct and never lowers the
      admin count. */
  lemma InviteKeepsInvariants(b: Board, invitee: ObjectId, role: Option<Role>)
    requires DistinctMembers(b.members)
    requires InviteBoardMember(Some(b), Some(invitee), role).Ok?
    ensures var b' := InviteBoardMember(Some(b), Some(invitee), role).value;
            DistinctMembers(b'.members) && AdminCount(b'.members) >= AdminCount(b.members)
  {
    var m := BoardMember(invitee, role.GetOr(Member));
    AdminCountConcat(b.members, [m]);
    assert [m][1..] == [];
    var ms' := b.members + [m];
    forall p, q | 0 <= p < q < |ms'| ensures ms'[p].userId != ms'[q].userId {
      if q == |b.members| {
        assert ms'[p] == b.members[p];
      }
    }
  }

  /** updateBoardMemberRole: 404 without a board or without an entry for
      the user; 400 when the user's (first) entry is an admin, the request
      does not ask for `admin`, and there is at most one admin; otherwise
      that entry takes the requested role, or keeps its own when none is
      given. An accepted change never leaves a board without an admin. */
  function UpdateBoardMemberRole(found: Option<Board>, target: ObjectId, role: Option<Role>): (r: Result<Board>)
    ensures found.None? ==> r == Err(NOT_FOUND)
    ensures found.Some? ==> (r == Err(NOT_FOUND) <==> !IsMember(found.value.members, target))
    ensures found.Some? && IsMember(found.value.members, target) ==>
      var m := found.value.members[FindMember(found.value.members, target)];
      (r == Err(BAD_REQUEST) <==> m.role == Admin && role != Some(Admin) && AdminCount(found.value.members) <= 1)
    ensures r.Ok? <==>
      && found.Some? && IsMember(found.value.members, target)
      && var m := found.value.members[FindMember(found.value.members, target)];
         !(m.role == Admin && role != Some(Admin) && AdminCount(found.value.members) <= 1)
    ensures r.Ok? ==>
      var i := FindMember(found.value.members, target);
      && r.value == found.value.(members := found.value.members[i := BoardMember(target, role.GetOr(found.value.members[i].role))])
      && (AdminCount(found.value.members) >= 1 ==> AdminCount(r.value.members) >= 1)
  {
    if found.None? then Err(NOT_FOUND)
    else
      var b := found.value;
      var i := FindMember(b.members, target);
      if i == -1 then Err(NOT_FOUND)
      else
        var m := b.members[i];
        if m.role == Admin && role != Some(Admin) && AdminCount(b.members) <= 1 then Err(BAD_REQUEST)
        else
          var m' := m.(role := role.GetOr(m.role));
          AdminCountUpdate(b.members, i, m');
          Ok(b.(members := b.members[i := m']))
  }

  /** A role change leaves the user ids of the entries, and so their
      distinctness, as they were. */
  lemma RoleChangeKeepsDistinct(b: Board, target: ObjectId, role: Option<Role>)
    requires DistinctMembers(b.members)
    requires UpdateBoardMemberRole(Some(b), target, role).Ok?
    ensures DistinctMembers(UpdateBoardMemberRole(Some(b), target, role).value.members)
  {
    var ms' := UpdateBoardMemberRole(Some(b), target, role).value.members;
    assert forall k :: 0 <= k < |ms'| ==> ms'[k].userId == b.members[k].userId;
  }

  /** removeBoardMember: 404 without a board or without an entry for the
      user; 400 when the user's (first) entry is an admin and there is at
      most one admin; otherwise every entry of that user is dropped and the
      other entries are kept. */
  function RemoveBoardMember(found: Option<Board>, target: ObjectId): (r: Result<Board>)
    ensures found.None? ==> r == Err(NOT_FOUND)
    ensures found.Some? ==> (r == Err(NOT_FOUND) <==> !IsMember(found.value.members, target))
    ensures found.Some? && IsMember(found.value.members, target) ==>
      var m := found.value.members[FindMember(found.value.members, target)];
      (r == Err(BAD_REQUEST) <==> m.role == Admin && AdminCount(found.value.members) <= 1)
    ensures r.Ok? <==>
      && found.Some? && IsMember(found.value.members, target)
      && var m := found.value.members[FindMember(found.value.members, target)];
         !(m.role == Admin && AdminCount(found.value.members) <= 1)
    ensures r.Ok? ==> r.value == found.value.(members := WithoutUser(found.value.members, target))
  {
    if found.None? then Err(NOT_FOUND)
    else
      var b := found.value;
      var i := FindMember(b.members, target);
      if i == -1 then Err(NOT_FOUND)
      else if b.members[i].role == Admin && AdminCount(b.members) <= 1 then Err(BAD_REQUEST)
      else Ok(b.(members := WithoutUser(b.members, target)))
  }

  /** With one entry per user, an accepted removal drops exactly the target's
      entry, keeps the others in order, and never takes the admin count from
      one or more down to zero. */
  lemma RemovalKeepsAnAdmin(b: Board, target: ObjectId)
    requires DistinctMembers(b.members) && AdminCount(b.members) >= 1
    requires RemoveBoardMember(Some(b), target).Ok?
    ensures var ms' := RemoveBoardMember(Some(b), target).value.members;
            var i := FindMember(b.members, target);
            && ms' == b.members[..i] + b.members[i + 1..]
            && AdminCount(ms') >= 1 && DistinctMembers(ms')
  {
    var i := FindMember(b.members, target);
    WithoutSoleEntry(b.members, target);
    AdminCountRemoveAt(b.members, i);
    DistinctRemoveAt(b.members, i);
  }

  /** The guard reads only the first entry of the user: with two entries
      for one user, the second being the only admin, the removal is accepted
      and the board is left without an admin. Entries stay distinct under
      every handler here (see the lemmas above), so this needs a board
      written by other means. */
  lemma RemovalGuardSeesFirstEntryOnly()
    ensures var b := Board("b", "t", "", "o", "org",
                           [BoardMember("u", Member), BoardMember("u", Admin)], [], "", false);
            var r := RemoveBoardMember(Some(b), "u");
            r.Ok? && AdminCount(r.value.members) == 0 && AdminCount(b.members) == 1
  {
    var ms := [BoardMember("u", Member), BoardMember("u", Admin)];
    assert ms[1..][1..] == [];
    assert AdminCount(ms) == 1;
    assert FindMember(ms, "u") == 0;
    assert ms[1..][0].userId == "u";
    assert WithoutUser(ms, "u") == [];
  }

  // ---------------------------------------------------------------------
  // Columns
  // ---------------------------------------------------------------------

  predicate PositionTaken(cs: seq<Column>, pos: int) {
    exists k :: 0 <= k < |cs| && cs[k].position == pos
  }

  /** No two columns share a position. */
  predicate DistinctPositions(cs: seq<Column>) {
    forall i, j :: 0 <= i < j < |cs| ==> cs[i].position != cs[j].position
  }

  /** `columns.findIndex(c => c._id.equals(id))` (and `columns.id(id)`,
      which returns the same first match): -1 when no column has that id. */
  function FindColumn(cs: seq<Column>, id: ObjectId): (i: int)
    ensures -1 <= i < |cs|
    ensures i == -1 <==> forall k :: 0 <= k < |cs| ==> cs[k].id != id
    ensures i >= 0 ==> cs[i].id == id && forall k :: 0 <= k < i ==> cs[k].id != id
  {
    FirstIndex(cs, (c: Column) => c.id == id)
  }

  /** addColumn: the position defaults to 0; a position some column already
      holds gives 400; otherwise exactly one column is appended. */
  function AddColumn(found: Option<Board>, newColumnId: ObjectId, title: string, position: Option<int>): (r: Result<Board>)
    ensures found.None? ==> r == Err(NOT_FOUND)
    ensures found.Some? ==>
      (r == Err(BAD_REQUEST) <==> PositionTaken(found.value.columns, position.GetOr(0)))
    ensures r.Ok? <==> found.Some? && !PositionTaken(found.value.columns, position.GetOr(0))
    ensures r.Ok? ==> r.value == found.value.(columns := found.value.columns
                                               + [Column(newColumnId, title, position.GetOr(0))])
  {
    if found.None? then Err(NOT_FOUND)
    else
      var b := found.value;
      var pos := position.GetOr(0);
      if PositionTaken(b.columns, pos) then Err(BAD_REQUEST)
      else Ok(b.(columns := b.columns + [Column(newColumnId, title, pos)]))
  }

  lemma AddColumnKeepsPositionsDistinct(b: Board, newColumnId: ObjectId, title: string, position: Option<int>)
    requires DistinctPositions(b.columns)
    requires AddColumn(Some(b), newColumnId, title, position).Ok?
    ensures DistinctPositions(AddColumn(Some(b), newColumnId, title, position).value.columns)
  {
    var cs' := AddColumn(Some(b), newColumnId, title, position).value.columns;
    forall p, q | 0 <= p < q < |cs'| ensures cs'[p].position != cs'[q].position {
      if q == |b.columns| {
        assert cs'[p] == b.columns[p];
      }
    }
  }

  /** updateColumn, as the code has it: 404 without a board or a column with
      that id; 400 when ANY column, the edited one included, sits at the
      requested position (0 when none is given); otherwise the column's
      title is replaced by a non-empty new one and its position by the
      given one. */
  function UpdateColumn(found: Option<Board>, columnId: ObjectId, title: string, position: Option<int>): (r: Result<Board>)
    ensures found.None? ==> r == Err(NOT_FOUND)
    ensures found.Some? ==> (r == Err(NOT_FOUND) <==> FindColumn(found.value.columns, columnId) == -1)
    ensures found.Some? && FindColumn(found.value.columns, columnId) != -1 ==>
      (r == Err(BAD_REQUEST) <==> PositionTaken(found.value.columns, position.GetOr(0)))
    ensures r.Ok? <==>
      found.Some? && FindColumn(found.value.columns, columnId) != -1
      && !PositionTaken(found.value.columns, position.GetOr(0))
    ensures r.Ok? ==>
      var cs := found.value.columns;
      var i := FindColumn(cs, columnId);
      && r.value == found.value.(columns := cs[i := Column(columnId, OrElse(title, cs[i].title), position.GetOr(cs[i].position))])
  {
    if found.None? then Err(NOT_FOUND)
    else
      var b := found.value;
      var i := FindColumn(b.columns, columnId);
      if i == -1 then Err(NOT_FOUND)
      else if PositionTaken(b.columns, position.GetOr(0)) then Err(BAD_REQUEST)
      else
        var c := b.columns[i];
        var c' := c.(title := OrElse(title, c.title),
                     position := if position.Some? then position.value else c.position);
        Ok(b.(columns := b.columns[i := c']))
  }

  /** The discrepancy: renaming the column that sits at position 0 without
      moving it is always refused, and so is "moving" any column to the
      position it already has. */
  lemma UpdateColumnRefusesOwnPosition(b: Board, columnId: ObjectId, title: string, position: Option<int>)
    requires FindColumn(b.columns, columnId) != -1
    requires position.GetOr(0) == b.columns[FindColumn(b.columns, columnId)].position
    ensures UpdateColumn(Some(b), columnId, title, position) == Err(BAD_REQUEST)
  {
  }

  /** updateColumn as evidently intended: the conflict check only runs when
      a new position is given, and only against the other columns. */
  function UpdateColumnIntended(found: Option<Board>, columnId: ObjectId, title: string, position: Option<int>): (r: Result<Board>)
    ensures found.None? ==> r == Err(NOT_FOUND)
    ensures found.Some? ==> (r == Err(NOT_FOUND) <==> FindColumn(found.value.columns, columnId) == -1)
    ensures found.Some? && FindColumn(found.value.columns, columnId) != -1 ==>
      var cs := found.value.columns;
      var i := FindColumn(cs, columnId);
      (r == Err(BAD_REQUEST) <==>
        position.Some? && exists k :: 0 <= k < |cs| && k != i && cs[k].position == position.value)
    ensures r.Ok? <==>
      && found.Some? && FindColumn(found.value.columns, columnId) != -1
      && var cs := found.value.columns;
         var i := FindColumn(cs, columnId);
         !(position.Some? && exists k :: 0 <= k < |cs| && k != i && cs[k].position == position.value)
    ensures r.Ok? ==>
      var cs := found.value.columns;
      var i := FindColumn(cs, columnId);
      && r.value == found.value.(columns := cs[i := Column(columnId, OrElse(title, cs[i].title), position.GetOr(cs[i].position))])
  {
    if found.None? then Err(NOT_FOUND)
    else
      var b := found.value;
      var i := FindColumn(b.columns, columnId);
      if i == -1 then Err(NOT_FOUND)
      else if position.Some? && exists k :: 0 <= k < |b.columns| && k != i && b.columns[k].position == position.value
      then Err(BAD_REQUEST)
      else
        var c := b.columns[i];
        Ok(b.(columns := b.columns[i := c.(title := OrElse(title, c.title), position := position.GetOr(c.position))]))
  }

  /** The corrected handler accepts every rename of an existing column and
      keeps column positions distinct. */
  lemma IntendedUpdateColumnIsSound(b: Board, columnId: ObjectId, title: string, position: Option<int>)
    requires DistinctPositions(b.columns) && FindColumn(b.columns, columnId) != -1
    ensures UpdateColumnIntended(Some(b), columnId, title, None).Ok?
    ensures var r := UpdateColumnIntended(Some(b), columnId, title, position);
            r.Ok? ==> DistinctPositions(r.value.columns)
  {
    var r := UpdateColumnIntended(Some(b), columnId, title, position);
    if r.Ok? {
      var i := FindColumn(b.columns, columnId);
      var cs' := r.value.columns;
      forall p, q | 0 <= p < q < |cs'| ensures cs'[p].position != cs'[q].position {
        if p == i {
          assert position.Some? ==> b.columns[q].position != position.value;
        } else if q == i {
          assert position.Some? ==> b.columns[p].position != position.value;
        }
      }
    }
  }

  /** deleteColumn: 404 without a board or a column with that id; otherwise
      the first column with that id is removed and the others keep their
      order. */
  function DeleteColumn(found: Option<Board>, columnId: ObjectId): (r: Result<Board>)
    ensures found.None? ==> r == Err(NOT_FOUND)
    ensures found.Some? ==> (r == Err(NOT_FOUND) <==> FindColumn(found.value.columns, columnId) == -1)
    ensures r.Ok? <==> found.Some? && FindColumn(found.value.columns, columnId) != -1
    ensures r.Ok? ==>
      var cs := found.value.columns;
      var i := FindColumn(cs, columnId);
      && |r.value.columns| == |cs| - 1
      && r.value == found.value.(columns := cs[..i] + cs[i + 1..])
  {
    if found.None? then Err(NOT_FOUND)
    else
      var b := found.value;
      var i := FindColumn(b.columns, columnId);
      if i == -1 then Err(NOT_FOUND)
      else Ok(b.(columns := b.columns[..i] + b.columns[i + 1..]))
  }

  lemma DeleteColumnKeepsPositionsDistinct(b: Board, columnId: ObjectId)
    requires DistinctPositions(b.columns)
    requires DeleteColumn(Some(b), columnId).Ok?
    ensures DistinctPositions(DeleteColumn(Some(b), columnId).value.columns)
  {
    var i := FindColumn(b.columns, columnId);
    var cs' := DeleteColumn(Some(b), columnId).value.columns;
    forall p, q | 0 <= p < q < |cs'| ensures cs'[p].position != cs'[q].position {
      var p' := if p < i then p else p + 1;
      var q' := if q < i then q else q + 1;
      assert cs'[p] == b.columns[p'] && cs'[q] == b.columns[q'];
    }
  }

  // ---------------------------------------------------------------------
  // Task creation
  // ---------------------------------------------------------------------

  /** The body of a task-creation request; empty strings stand for missing
      text fields. */
  datatype NewTask = NewTask(
    title: string,
    description: string,
    columnId: ObjectId,
    assignees: Option<seq<ObjectId>>,
    priority: Option<Priority>,
    dueDate: Option<Date>,
    labels: Option<seq<ObjectId>>)

  /** The guards of createTask, in their order: 400 for a missing title or
      column before anything is looked up, 404 without a board, and 403
      unless the caller has an entry on the board whose role is not viewer
      (owning the board is not enough). None when the request gets past
      them. */
  function CreateTaskRefusal(req: NewTask, found: Option<Board>, user: ObjectId): (s: Option<int>)
    ensures req.title == "" || req.columnId == "" ==> s == Some(BAD_REQUEST)
    ensures req.title != "" && req.columnId != "" && found.None? ==> s == Some(NOT_FOUND)
    ensures req.title != "" && req.columnId != "" && found.Some? ==>
      (s == Some(FORBIDDEN) <==>
        var i := FindMember(found.value.members, user);
        i == -1 || found.value.members[i].role == Viewer)
    ensures s.None? ==> req.title != "" && req.columnId != "" && found.Some?
                        && IsMember(found.value.members, user)
  {
    if req.title == "" || req.columnId == "" then Some(BAD_REQUEST)
    else if found.None? then Some(NOT_FOUND)
    else
      var i := FindMember(found.value.members, user);
      if i == -1 || found.value.members[i].role == Viewer then Some(FORBIDDEN)
      else None
  }

  /** createTask as the code has it: past the guards it asks the Task model
      for `getNextPosition`, which the model does not define, so the call
      throws and the catch answers 500. No request ever creates a task. */
  function CreateTaskAsWritten(req: NewTask, found: Option<Board>, user: ObjectId): (r: Result<Task>)
    ensures r.Err?
    ensures r.status == SERVER_ERROR <==> CreateTaskRefusal(req, found, user).None?
    ensures r.status != SERVER_ERROR ==> Some(r.status) == CreateTaskRefusal(req, found, user)
  {
    var refusal := CreateTaskRefusal(req, found, user);
    if refusal.Some? then Err(refusal.value) else Err(SERVER_ERROR)
  }

  /** createTask as evidently intended: past the guards, a task with the
      requested fields and the schema's defaults (no assignees, medium
      priority, no due date, no labels, status `todo`, an empty checklist),
      at the next position in its column, which is handed in. */
  function CreateTask(req: NewTask, found: Option<Board>, user: ObjectId, taskId: ObjectId, position: int): (r: Result<Task>)
    ensures req.title == "" || req.columnId == "" ==> r == Err(BAD_REQUEST)
    ensures req.title != "" && req.columnId != "" && found.None? ==> r == Err(NOT_FOUND)
    ensures req.title != "" && req.columnId != "" && found.Some? ==>
      (r == Err(FORBIDDEN) <==>
        var i := FindMember(found.value.members, user);
        i == -1 || found.value.members[i].role == Viewer)
    ensures r.Ok? <==>
      && req.title != "" && req.columnId != "" && found.Some? && IsMember(found.value.members, user)
      && found.value.members[FindMember(found.value.members, user)].role != Viewer
    ensures r.Ok? ==>
      && r.value.id == taskId && r.value.description == req.description
      && r.value.title == req.title && r.value.columnId == req.columnId
      && r.value.boardId == found.value.id && r.value.createdBy == user
      && r.value.assignees == req.assignees.GetOr([]) && r.value.labels == req.labels.GetOr([])
      && r.value.priority == req.priority.GetOr(Medium) && r.value.dueDate == req.dueDate
      && r.value.status == "todo" && r.value.checklist == [] && r.value.startDate == None
      && r.value.position == position && IsMember(found.value.members, user)
  {
    var refusal := CreateTaskRefusal(req, found, user);
    if refusal.Some? then Err(refusal.value)
    else
      Ok(Task(taskId, req.title, req.description, found.value.id, req.columnId,
              req.assignees.GetOr([]), req.priority.GetOr(Medium), "todo",
              req.dueDate, None, req.labels.GetOr([]), [], position, user))
  }

  /** The two handlers refuse the same requests with the same status, and
      the code as written answers 500 exactly where the intended handler
      creates a task. */
  lemma CreateTaskNeverSucceeds(req: NewTask, found: Option<Board>, user: ObjectId, taskId: ObjectId, position: int)
    ensures !CreateTaskAsWritten(req, found, user).Ok?
    ensures CreateTaskAsWritten(req, found, user) == Err(SERVER_ERROR)
            <==> CreateTask(req, found, user, taskId, position).Ok?
    ensures CreateTask(req, found, user, taskId, position).Err? ==>
            CreateTaskAsWritten(req, found, user) == CreateTask(req, found, user, taskId, position)
  {
  }
}
