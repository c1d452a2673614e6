/** The task controller with the database calls taken out: every handler
    receives the task it would have loaded and the board that task belongs
    to (None when either is missing) and answers with the edited task, which
    it would then save, or with an error status. */
module Tasks {
  import opened Results
  import opened Model
  import JsText

  // ---------------------------------------------------------------------
  // The access gate
  // ---------------------------------------------------------------------

  /** The gate every task handler runs after loading the task: the caller's
      first entry on the board must exist, and for a handler that changes
      something its role must not be viewer. The board's owner gets no
      special treatment. A task whose board is gone makes the handler read
      a field of null, which the catch-all turns into 500. */
  function TaskAccess(board: Option<Board>, user: ObjectId, mutating: bool): (r: Result<BoardMember>)
    ensures board.None? ==> r == Err(SERVER_ERROR)
    ensures board.Some? ==>
      (r.Ok? <==> IsMember(board.value.members, user)
                  && (!mutating || board.value.members[FindMember(board.value.members, user)].role != Viewer))
    ensures board.Some? && r.Err? ==> r.status == FORBIDDEN
    ensures r.Ok? ==> r.value.userId == user
  {
    if board.None? then Err(SERVER_ERROR)
    else
      var i := FindMember(board.value.members, user);
      if i == -1 then Err(FORBIDDEN)
      else if mutating && board.value.members[i].role == Viewer then Err(FORBIDDEN)
      else Ok(board.value.members[i])
  }

  /** Reading is never stricter than changing: whoever may change a task
      may read it. */
  lemma ChangeAccessImpliesReadAccess(board: Option<Board>, user: ObjectId)
    requires TaskAccess(board, user, true).Ok?
    ensures TaskAccess(board, user, false).Ok?
  {
  }

  /** getTaskById: 404 without a task, then membership alone decides: a
      caller without an entry gets 403, and a task whose board is gone 500. */
  function GetTaskById(task: Option<Task>, board: Option<Board>, user: ObjectId): (r: Result<Task>)
    ensures task.None? ==> r == Err(NOT_FOUND)
    ensures task.Some? && board.Some? ==> (r == Ok(task.value) <==> IsMember(board.value.members, user))
    ensures task.Some? && board.Some? && !IsMember(board.value.members, user) ==> r == Err(FORBIDDEN)
    ensures task.Some? && board.None? ==> r == Err(SERVER_ERROR)
  {
    if task.None? then Err(NOT_FOUND)
    else
      var access := TaskAccess(board, user, false);
      if access.Err? then Err(access.status) else Ok(task.value)
  }

  // ---------------------------------------------------------------------
  // updateTask: the whitelist
  // ---------------------------------------------------------------------

  datatype Field = Title | Description | PriorityField | Status | DueDate | StartDate

  /** The fields updateTask copies from the request, in its order. */
  const ALLOWED_FIELDS: seq<Field> := [Title, Description, PriorityField, Status, DueDate, StartDate]

  /** An updateTask request body: None is a field the request leaves
      undefined. A client may also send fields outside the whitelist; the
      last four stand for those. */
  datatype TaskChanges = TaskChanges(
    title: Option<string>,
    description: Option<string>,
    priority: Option<Priority>,
    status: Option<string>,
    dueDate: Option<Date>,
    startDate: Option<Date>,
    columnId: Option<ObjectId>,
    position: Option<int>,
    assignees: Option<seq<ObjectId>>,
    labels: Option<seq<ObjectId>>)

  /** One step of the forEach: `if (updates[f] !== undefined) task[f] = updates[f]`. */
  function CopyField(t: Task, changes: TaskChanges, f: Field): Task {
    match f
    case Title => if changes.title.Some? then t.(title := changes.title.value) else t
    case Description => if changes.description.Some? then t.(description := changes.description.value) else t
    case PriorityField => if changes.priority.Some? then t.(priority := changes.priority.value) else t
    case Status => if changes.status.Some? then t.(status := changes.status.value) else t
    case DueDate => if changes.dueDate.Some? then t.(dueDate := changes.dueDate) else t
    case StartDate => if changes.startDate.Some? then t.(startDate := changes.startDate) else t
  }

  /** `t` is `orig` with exactly the fields in `done` copied from the
      request where the request defines them. */
  ghost predicate CopiedFrom(t: Task, orig: Task, changes: TaskChanges, done: seq<Field>) {
    && t.title == (if Title in done then changes.title.GetOr(orig.title) else orig.title)
    && t.description == (if Description in done then changes.description.GetOr(orig.description) else orig.description)
    && t.priority == (if PriorityField in done then changes.priority.GetOr(orig.priority) else orig.priority)
    && t.status == (if Status in done then changes.status.GetOr(orig.status) else orig.status)
    && t.dueDate == (if DueDate in done && changes.dueDate.Some? then changes.dueDate else orig.dueDate)
    && t.startDate == (if StartDate in done && changes.startDate.Some? then changes.startDate else orig.startDate)
    && t.(title := orig.title, description := orig.description, priority := orig.priority,
          status := orig.status, dueDate := orig.dueDate, startDate := orig.startDate) == orig
  }

  /** Copying one more field extends what has been copied by that field. */
  lemma CopyFieldStep(t: Task, orig: Task, changes: TaskChanges, done: seq<Field>, f: Field)
    requires CopiedFrom(t, orig, changes, done)
    ensures CopiedFrom(CopyField(t, changes, f), orig, changes, done + [f])
  {
    var d := done + [f];
    assert forall g :: g in d <==> g in done || g == f;
  }

  /** updateTask: 404 without a task, the changing gate, and then only the
      six whitelisted fields are copied, each only when the request defines
      it; every other field of the task, whatever the request says about
      it, stays as it was. */
  method UpdateTask(task: Option<Task>, board: Option<Board>, user: ObjectId, changes: TaskChanges)
    returns (r: Result<Task>)
    ensures task.None? ==> r == Err(NOT_FOUND)
    ensures task.Some? && TaskAccess(board, user, true).Err? ==> r == Err(TaskAccess(board, user, true).status)
    ensures task.Some? && TaskAccess(board, user, true).Ok? ==> r.Ok?
    ensures r.Ok? ==>
      var t := task.value;
      && r.value.title == changes.title.GetOr(t.title)
      && r.value.description == changes.description.GetOr(t.description)
      && r.value.priority == changes.priority.GetOr(t.priority)
      && r.value.status == changes.status.GetOr(t.status)
      && r.value.dueDate == (if changes.dueDate.Some? then changes.dueDate else t.dueDate)
      && r.value.startDate == (if changes.startDate.Some? then changes.startDate else t.startDate)
      && r.value.(title := t.title, description := t.description, priority := t.priority,
                  status := t.status, dueDate := t.dueDate, startDate := t.startDate) == t
  {
    if task.None? {
      return Err(NOT_FOUND);
    }
    var access := TaskAccess(board, user, true);
    if access.Err? {
      return Err(access.status);
    }
    var t := task.value;
    for i := 0 to |ALLOWED_FIELDS|
      invariant CopiedFrom(t, task.value, changes, ALLOWED_FIELDS[..i])
    {
      assert ALLOWED_FIELDS[..i + 1] == ALLOWED_FIELDS[..i] + [ALLOWED_FIELDS[i]];
      CopyFieldStep(t, task.value, changes, ALLOWED_FIELDS[..i], ALLOWED_FIELDS[i]);
      t := CopyField(t, changes, ALLOWED_FIELDS[i]);
    }
    assert ALLOWED_FIELDS[..|ALLOWED_FIELDS|] == ALLOWED_FIELDS;
    r := Ok(t);
  }

  // ---------------------------------------------------------------------
  // moveTask
  // ---------------------------------------------------------------------

  /** moveTask: 404 without a task, the changing gate, then the task takes
      the destination column and position and nothing else changes. A
      request without `toColumnId` gets the id `new ObjectId(undefined)`
      generates, `freshId`. */
  function MoveTask(task: Option<Task>, board: Option<Board>, user: ObjectId,
                    toColumnId: Option<ObjectId>, freshId: ObjectId, toPosition: int): (r: Result<Task>)
    ensures task.None? ==> r == Err(NOT_FOUND)
    ensures task.Some? && TaskAccess(board, user, true).Err? ==> r == Err(TaskAccess(board, user, true).status)
    ensures task.Some? ==> (r.Ok? <==> TaskAccess(board, user, true).Ok?)
    ensures r.Ok? && toColumnId.Some? ==> r.value.columnId == toColumnId.value
    ensures r.Ok? && toColumnId.None? ==> r.value.columnId == freshId
    ensures r.Ok? ==> r.value.position == toPosition
                      && r.value.(columnId := task.value.columnId, position := task.value.position) == task.value
  {
    if task.None? then Err(NOT_FOUND)
    else
      var access := TaskAccess(board, user, true);
      if access.Err? then Err(access.status)
      else Ok(task.value.(columnId := toColumnId.GetOr(freshId), position := toPosition))
  }

  // ---------------------------------------------------------------------
  // Checklist
  // ---------------------------------------------------------------------

  /** `checklist.find(item => item._id equals id)`, as an index: the first
      item with that id, or -1. */
  function FindItem(cl: seq<ChecklistItem>, id: ObjectId): (i: int)
    ensures -1 <= i < |cl|
    ensures i == -1 <==> forall k :: 0 <= k < |cl| ==> cl[k].id != id
    ensures i >= 0 ==> cl[i].id == id && forall k :: 0 <= k < i ==> cl[k].id != id
  {
    FirstIndex(cl, (it: ChecklistItem) => it.id == id)
  }

  /** updateChecklistItem: 404 without a task, the changing gate, 404
      without an item of that id; otherwise the first such item takes the
      text and the completion flag the request defines, and every other
      item stays as it was. */
  function UpdateChecklistItem(task: Option<Task>, board: Option<Board>, user: ObjectId, itemId: ObjectId,
                               text: Option<string>, completed: Option<bool>): (r: Result<Task>)
    ensures task.None? ==> r == Err(NOT_FOUND)
    ensures task.Some? && TaskAccess(board, user, true).Err? ==> r == Err(TaskAccess(board, user, true).status)
    ensures task.Some? && TaskAccess(board, user, true).Ok? ==>
      (r == Err(NOT_FOUND) <==> FindItem(task.value.checklist, itemId) == -1)
    ensures task.Some? && TaskAccess(board, user, true).Ok? ==>
      (r.Ok? <==> FindItem(task.value.checklist, itemId) != -1)
    ensures r.Ok? ==>
      var cl := task.value.checklist;
      var i := FindItem(cl, itemId);
      && r.value == task.value.(checklist := r.value.checklist)
      && |r.value.checklist| == |cl|
      && r.value.checklist[i] == ChecklistItem(itemId, text.GetOr(cl[i].text), completed.GetOr(cl[i].completed))
      && forall k :: 0 <= k < |cl| && k != i ==> r.value.checklist[k] == cl[k]
  {
    if task.None? then Err(NOT_FOUND)
    else
      var access := TaskAccess(board, user, true);
      if access.Err? then Err(access.status)
      else
        var cl := task.value.checklist;
        var i := FindItem(cl, itemId);
        if i == -1 then Err(NOT_FOUND)
        else
          var item := cl[i].(text := text.GetOr(cl[i].text), completed := completed.GetOr(cl[i].completed));
          Ok(task.value.(checklist := cl[i := item]))
  }

  /** toggleChecklistItemCompletion: as updateChecklistItem, but the first
      item with that id has its completion flag negated. */
  function ToggleChecklistItem(task: Option<Task>, board: Option<Board>, user: ObjectId, itemId: ObjectId): (r: Result<Task>)
    ensures task.None? ==> r == Err(NOT_FOUND)
    ensures task.Some? && TaskAccess(board, user, true).Err? ==> r == Err(TaskAccess(board, user, true).status)
    ensures task.Some? && TaskAccess(board, user, true).Ok? ==>
      (r == Err(NOT_FOUND) <==> FindItem(task.value.checklist, itemId) == -1)
    ensures task.Some? && TaskAccess(board, user, true).Ok? ==>
      (r.Ok? <==> FindItem(task.value.checklist, itemId) != -1)
    ensures r.Ok? ==>
      var cl := task.value.checklist;
      var i := FindItem(cl, itemId);
      && r.value == task.value.(checklist := r.value.checklist)
      && |r.value.checklist| == |cl|
      && r.value.checklist[i] == cl[i].(completed := !cl[i].completed)
      && forall k :: 0 <= k < |cl| && k != i ==> r.value.checklist[k] == cl[k]
  {
    if task.None? then Err(NOT_FOUND)
    else
      var access := TaskAccess(board, user, true);
      if access.Err? then Err(access.status)
      else
        var cl := task.value.checklist;
        var i := FindItem(cl, itemId);
        if i == -1 then Err(NOT_FOUND)
        else Ok(task.value.(checklist := cl[i := cl[i].(completed := !cl[i].completed)]))
  }

  /** Toggling the same item twice gives back the task as it was. */
  lemma ToggleTwiceRestores(t: Task, board: Option<Board>, user: ObjectId, itemId: ObjectId)
    requires ToggleChecklistItem(Some(t), board, user, itemId).Ok?
    ensures var once := ToggleChecklistItem(Some(t), board, user, itemId).value;
            ToggleChecklistItem(Some(once), board, user, itemId) == Ok(t)
  {
    var once := ToggleChecklistItem(Some(t), board, user, itemId).value;
    var i := FindItem(t.checklist, itemId);
    assert FindItem(once.checklist, itemId) == i by {
      assert forall k :: 0 <= k < i ==> once.checklist[k] == t.checklist[k];
    }
    var twice := ToggleChecklistItem(Some(once), board, user, itemId).value;
    assert twice.checklist == t.checklist;
  }

  /** `checklist.filter(item => item._id is not id)`: every item with the
      id goes, every other item stays with its multiplicity. */
  function WithoutItem(cl: seq<ChecklistItem>, id: ObjectId): (r: seq<ChecklistItem>)
    ensures |r| <= |cl|
    ensures forall k :: 0 <= k < |r| ==> r[k].id != id
    ensures forall it: ChecklistItem {:trigger multiset(r)[it]} ::
      multiset(r)[it] == if it.id == id then 0 else multiset(cl)[it]
  {
    if cl == [] then []
    else
      var rest := WithoutItem(cl[1..], id);
      assert cl == [cl[0]] + cl[1..];
      assert multiset(cl) == multiset{cl[0]} + multiset(cl[1..]);
      if cl[0].id == id then rest
      else
        assert multiset([cl[0]] + rest) == multiset{cl[0]} + multiset(rest);
        [cl[0]] + rest
  }

  /** The filter keeps the surviving items in their order: filtering a
      concatenation filters each part. */
  lemma {:induction false} WithoutItemConcat(a: seq<ChecklistItem>, b: seq<ChecklistItem>, id: ObjectId)
    ensures WithoutItem(a + b, id) == WithoutItem(a, id) + WithoutItem(b, id)
  {
    if a == [] {
      assert a + b == b;
    } else {
      assert (a + b)[1..] == a[1..] + b;
      WithoutItemConcat(a[1..], b, id);
    }
  }

  /** The filter keeps every item with another id, and loses one item for
      each item that has the id. */
  lemma {:induction false} WithoutItemKeepsOthers(cl: seq<ChecklistItem>, id: ObjectId)
    ensures forall it :: it in cl && it.id != id ==> it in WithoutItem(cl, id)
    ensures |WithoutItem(cl, id)| < |cl| <==> exists k :: 0 <= k < |cl| && cl[k].id == id
  {
    if cl != [] {
      WithoutItemKeepsOthers(cl[1..], id);
      assert forall it :: it in cl ==> it == cl[0] || it in cl[1..];
      assert forall k :: 1 <= k < |cl| ==> cl[k] == cl[1..][k - 1];
      if exists k :: 0 <= k < |cl[1..]| && cl[1..][k].id == id {
        var k :| 0 <= k < |cl[1..]| && cl[1..][k].id == id;
        assert cl[k + 1].id == id;
      }
    }
  }

  /** deleteChecklistItem: 404 without a task, the changing gate, 404
      without an item of that id; otherwise every item with that id goes
      and the others stay. */
  function DeleteChecklistItem(task: Option<Task>, board: Option<Board>, user: ObjectId, itemId: ObjectId): (r: Result<Task>)
    ensures task.None? ==> r == Err(NOT_FOUND)
    ensures task.Some? && TaskAccess(board, user, true).Err? ==> r == Err(TaskAccess(board, user, true).status)
    ensures task.Some? && TaskAccess(board, user, true).Ok? ==>
      (r == Err(NOT_FOUND) <==> FindItem(task.value.checklist, itemId) == -1)
    ensures task.Some? && TaskAccess(board, user, true).Ok? ==>
      (r.Ok? <==> FindItem(task.value.checklist, itemId) != -1)
    ensures r.Ok? ==> r.value == task.value.(checklist := WithoutItem(task.value.checklist, itemId))
                      && |r.value.checklist| < |task.value.checklist|
  {
    if task.None? then Err(NOT_FOUND)
    else
      var access := TaskAccess(board, user, true);
      if access.Err? then Err(access.status)
      else
        var cl := task.value.checklist;
        if FindItem(cl, itemId) == -1 then Err(NOT_FOUND)
        else
          WithoutItemKeepsOthers(cl, itemId);
          Ok(task.value.(checklist := WithoutItem(cl, itemId)))
  }

  // ---------------------------------------------------------------------
  // Labels
  // ---------------------------------------------------------------------

  /** `labels.filter(label => label._id is not id)` */
  function WithoutLabel(ls: seq<ObjectId>, id: ObjectId): (r: seq<ObjectId>)
    ensures id !in r
    ensures forall x :: x != id ==> multiset(r)[x] == multiset(ls)[x]
  {
    if ls == [] then []
    else
      assert ls == [ls[0]] + ls[1..];
      if ls[0] == id then WithoutLabel(ls[1..], id)
      else [ls[0]] + WithoutLabel(ls[1..], id)
  }

  lemma {:induction false} WithoutLabelAppended(ls: seq<ObjectId>, id: ObjectId)
    ensures WithoutLabel(ls + [id], id) == WithoutLabel(ls, id)
  {
    if ls == [] {
      assert [id][1..] == [];
    } else {
      assert (ls + [id])[1..] == ls[1..] + [id];
      WithoutLabelAppended(ls[1..], id);
    }
  }

  /** The filter keeps the surviving labels in their order: filtering a
      concatenation filters each part. */
  lemma {:induction false} WithoutLabelConcat(a: seq<ObjectId>, b: seq<ObjectId>, id: ObjectId)
    ensures WithoutLabel(a + b, id) == WithoutLabel(a, id) + WithoutLabel(b, id)
  {
    if a == [] {
      assert a + b == b;
    } else {
      assert (a + b)[1..] == a[1..] + b;
      WithoutLabelConcat(a[1..], b, id);
    }
  }

  /** addLabelToTask: 404 without a task, the changing gate, 404 without a
      label document of that id; otherwise the label is appended, even when
      the task already carries it. */
  function AddLabelToTask(task: Option<Task>, board: Option<Board>, user: ObjectId, labelDoc: Option<ObjectId>): (r: Result<Task>)
    ensures task.None? ==> r == Err(NOT_FOUND)
    ensures task.Some? && TaskAccess(board, user, true).Err? ==> r == Err(TaskAccess(board, user, true).status)
    ensures task.Some? && TaskAccess(board, user, true).Ok? ==> (r == Err(NOT_FOUND) <==> labelDoc.None?)
    ensures task.Some? && TaskAccess(board, user, true).Ok? ==> (r.Ok? <==> labelDoc.Some?)
    ensures r.Ok? ==> r.value == task.value.(labels := r.value.labels)
                      && multiset(r.value.labels) == multiset(task.value.labels) + multiset{labelDoc.value}
                      && |r.value.labels| == |task.value.labels| + 1
                      && r.value.labels[..|task.value.labels|] == task.value.labels
  {
    if task.None? then Err(NOT_FOUND)
    else
      var access := TaskAccess(board, user, true);
      if access.Err? then Err(access.status)
      else if labelDoc.None? then Err(NOT_FOUND)
      else
        var ls := task.value.labels + [labelDoc.value];
        assert ls[..|task.value.labels|] == task.value.labels;
        Ok(task.value.(labels := ls))
  }

  /** removeLabelFromTask: 404 without a task, the changing gate, 404 when
      no label document has that id; otherwise every occurrence of the id is
      dropped and every other label keeps its multiplicity. */
  function RemoveLabelFromTask(task: Option<Task>, board: Option<Board>, user: ObjectId, labelId: ObjectId, labelExists: bool): (r: Result<Task>)
    ensures task.None? ==> r == Err(NOT_FOUND)
    ensures task.Some? && TaskAccess(board, user, true).Err? ==> r == Err(TaskAccess(board, user, true).status)
    ensures task.Some? && TaskAccess(board, user, true).Ok? ==> (r == Err(NOT_FOUND) <==> !labelExists)
    ensures task.Some? && TaskAccess(board, user, true).Ok? ==> (r.Ok? <==> labelExists)
    ensures r.Ok? ==> r.value == task.value.(labels := WithoutLabel(task.value.labels, labelId))
    ensures r.Ok? ==> r.value == task.value.(labels := r.value.labels)
                      && labelId !in r.value.labels
                      && forall x :: x != labelId ==> multiset(r.value.labels)[x] == multiset(task.value.labels)[x]
  {
    if task.None? then Err(NOT_FOUND)
    else
      var access := TaskAccess(board, user, true);
      if access.Err? then Err(access.status)
      else if !labelExists then Err(NOT_FOUND)
      else Ok(task.value.(labels := WithoutLabel(task.value.labels, labelId)))
  }

  /** Removing a label right after adding it leaves the same labels as
      removing it from the task as it was. */
  lemma RemoveUndoesAdd(t: Task, board: Option<Board>, user: ObjectId, labelId: ObjectId)
    requires AddLabelToTask(Some(t), board, user, Some(labelId)).Ok?
    ensures var added := AddLabelToTask(Some(t), board, user, Some(labelId)).value;
            RemoveLabelFromTask(Some(added), board, user, labelId, true)
              == RemoveLabelFromTask(Some(t), board, user, labelId, true)
  {
    WithoutLabelAppended(t.labels, labelId);
  }

  // ---------------------------------------------------------------------
  // Comments
  // ---------------------------------------------------------------------

  /** A comment as `Comment.create` receives it. `attachments` is the
      request's list as handed over; the Comment schema has no such path,
      so strict mode drops it and it is not part of the stored document. */
  datatype Comment = Comment(taskId: ObjectId, userId: ObjectId, content: string, attachments: seq<string>)

  /** addCommentToTask: a missing, empty or all-white-space message gives 400
      before the task is even looked up; then 404 without a task, the
      changing gate, and a comment by the caller carrying the message as
      sent. */
  function AddCommentToTask(message: Option<string>, task: Option<Task>, board: Option<Board>, user: ObjectId,
                            attachments: seq<string>): (r: Result<Comment>)
    ensures r == Err(BAD_REQUEST) <==> message.None? || JsText.AllWhiteSpace(message.value)
    ensures message.Some? && !JsText.AllWhiteSpace(message.value) && task.None? ==> r == Err(NOT_FOUND)
    ensures message.Some? && !JsText.AllWhiteSpace(message.value) && task.Some? ==>
      (r.Ok? <==> TaskAccess(board, user, true).Ok?)
    ensures message.Some? && !JsText.AllWhiteSpace(message.value) && task.Some? && TaskAccess(board, user, true).Err? ==>
      r == Err(TaskAccess(board, user, true).status)
    ensures r.Ok? ==> r.value == Comment(task.value.id, user, message.value, attachments)
  {
    if message.None? || message.value == "" then Err(BAD_REQUEST)
    else
      JsText.TrimEmptyIffBlank(message.value);
      if JsText.Trim(message.value) == "" then Err(BAD_REQUEST)
      else if task.None? then Err(NOT_FOUND)
      else
        var access := TaskAccess(board, user, true);
        if access.Err? then Err(access.status)
        else Ok(Comment(task.value.id, user, message.value, attachments))
  }
}
