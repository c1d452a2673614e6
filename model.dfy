/** The documents the handlers work on, as the Board and Task schemas shape
    them. Mongo object ids become plain identifiers compared by equality, and
    dates become abstract instants. */
module Model {
  import opened Results

  type ObjectId = string
  type Date = int

  /** The role enum of a board membership. */
  datatype Role = Admin | Member | Viewer

  datatype BoardMember = BoardMember(userId: ObjectId, role: Role)

  datatype Column = Column(id: ObjectId, title: string, position: int)

  datatype Board = Board(
    id: ObjectId,
    title: string,
    description: string,
    owner: ObjectId,
    organizationId: ObjectId,
    members: seq<BoardMember>,
    columns: seq<Column>,
    background: string,
    isArchived: bool)

  /** The priority enum of a task. */
  datatype Priority = Low | Medium | High | Urgent

  datatype ChecklistItem = ChecklistItem(id: ObjectId, text: string, completed: bool)

  /** A task; `labels` holds the ids of the labels attached to it. */
  datatype Task = Task(
    id: ObjectId,
    title: string,
    description: string,
    boardId: ObjectId,
    columnId: ObjectId,
    assignees: seq<ObjectId>,
    priority: Priority,
    status: string,
    dueDate: Option<Date>,
    startDate: Option<Date>,
    labels: seq<ObjectId>,
    checklist: seq<ChecklistItem>,
    position: int,
    // The creator `createTask` hands to `Task.create`. The Task schema has
    // no such path, so strict mode drops it: it is the request's value, not
    // stored state.
    createdBy: ObjectId)

  /** `u` has an entry in the members list (the `some` test). */
  predicate IsMember(ms: seq<BoardMember>, u: ObjectId) {
    exists k :: 0 <= k < |ms| && ms[k].userId == u
  }

  /** The first index of `s` whose element satisfies `p`, or -1 when none
      does: `find` and `findIndex` over an array. */
  function FirstIndex<T>(s: seq<T>, p: T -> bool): (i: int)
    ensures -1 <= i < |s|
    ensures i == -1 <==> forall k :: 0 <= k < |s| ==> !p(s[k])
    ensures i >= 0 ==> p(s[i]) && forall k :: 0 <= k < i ==> !p(s[k])
  {
    if s == [] then -1
    else if p(s[0]) then 0
    else
      var j := FirstIndex(s[1..], p);
      assert forall k :: 1 <= k < |s| ==> s[k] == s[1..][k - 1];
      if j == -1 then -1 else j + 1
  }

  /** `members.find(m => m.userId equals u)`, as an index: the first entry
      of `u`, or -1 when there is none. */
  function FindMember(ms: seq<BoardMember>, u: ObjectId): (i: int)
    ensures -1 <= i < |ms|
    ensures i == -1 <==> !IsMember(ms, u)
    ensures i >= 0 ==> ms[i].userId == u && forall k :: 0 <= k < i ==> ms[k].userId != u
  {
    FirstIndex(ms, (m: BoardMember) => m.userId == u)
  }

  /** No user has two entries in a members list. */
  predicate DistinctMembers(ms: seq<BoardMember>) {
    forall i, j :: 0 <= i < j < |ms| ==> ms[i].userId != ms[j].userId
  }
}
