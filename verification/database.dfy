/** The task store (the `DataBase` class): an ordered task list, the next
    identifier to hand out, and the file image the list was last saved to.
    Every operation is a pure function from the old store to the new one. */
module Database {
  import opened Wrappers
  import opened IsoDate
  import opened Tasks
  import opened Persistence
  import opened Sequences

  /** The status `add_task` gives a new task ("not done"). */
  const NotDone: string := "не выполнена"

  datatype Store = Store(tasks: seq<Task>, nextId: int, file: FileImage)

  /** A store after a lookup-by-identifier operation, and whether the
      identifier was found. */
  datatype Reply = Reply(store: Store, found: bool)

  /** Every stored identifier is below the counter, so the counter is fresh. */
  predicate Fresh(s: Store) {
    IdsBelow(s.tasks, s.nextId)
  }

  predicate IdsBelow(tasks: seq<Task>, bound: int) {
    forall i | 0 <= i < |tasks| :: tasks[i].taskId < bound
  }

  /** Loading the file image gives the in-memory list. */
  predicate Synced(s: Store) {
    LoadAll(s.file) == s.tasks
  }

  predicate Invariant(s: Store) {
    Fresh(s) && Synced(s)
  }

  /** No two tasks share an identifier. Loading does not check this. */
  predicate UniqueIds(tasks: seq<Task>) {
    forall i, j | 0 <= i < j < |tasks| :: tasks[i].taskId != tasks[j].taskId
  }

  predicate HasId(tasks: seq<Task>, id: int) {
    exists i | 0 <= i < |tasks| :: tasks[i].taskId == id
  }

  function MaxId(tasks: seq<Task>): (m: int)
    requires |tasks| > 0
    ensures forall i | 0 <= i < |tasks| :: tasks[i].taskId <= m
    ensures exists i | 0 <= i < |tasks| :: tasks[i].taskId == m
  {
    if |tasks| == 1 then tasks[0].taskId
    else
      var rest := MaxId(tasks[1..]);
      if tasks[0].taskId >= rest then tasks[0].taskId else rest
  }

  /** `get_next_id`: one more than the largest identifier, or 1 when there
      are no tasks. */
  function NextId(tasks: seq<Task>): (n: int)
    ensures |tasks| == 0 ==> n == 1
    ensures forall i | 0 <= i < |tasks| :: tasks[i].taskId < n
    ensures |tasks| > 0 ==> HasId(tasks, n - 1)
  {
    if |tasks| == 0 then 1 else MaxId(tasks) + 1
  }

  /** The constructor: load the file, then compute the counter from the
      loaded identifiers. */
  function Open(f: FileImage): (s: Store)
    ensures s.file == f
    ensures Invariant(s)
    ensures |s.tasks| == 0 ==> s.nextId == 1
    ensures |s.tasks| > 0 ==> HasId(s.tasks, s.nextId - 1)
  {
    var tasks := LoadAll(f);
    Store(tasks, NextId(tasks), f)
  }

  /** `save_tasks`: overwrite the file with the encoded list; it fails when
      some task has no date. */
  function Save(s: Store): (r: Result<Store, SaveError>)
    ensures r.Success? <==> AllDated(s.tasks)
    ensures r.Failure? ==>
      r.error.position < |s.tasks| && s.tasks[r.error.position].dueDate.None?
    ensures r.Success? ==>
      r.value.tasks == s.tasks && r.value.nextId == s.nextId && Synced(r.value)
  {
    match SaveAll(s.tasks)
    case Failure(e) => Failure(e)
    case Success(rs) =>
      SaveThenLoad(s.tasks);
      Success(s.(file := Records(rs)))
  }

  /** `add_task`: append a new task with the counter as identifier and the
      "not done" status, advance the counter, save. */
  function Add(s: Store, title: string, description: string, category: string,
               dueDate: CalendarDate, priority: string): (r: Result<Store, SaveError>)
    ensures r.Success? <==> AllDated(s.tasks)
    ensures r.Failure? ==>
      r.error.position < |s.tasks| && s.tasks[r.error.position].dueDate.None?
    ensures r.Success? ==>
      && r.value.tasks == s.tasks + [Task(s.nextId, title, description, category, Some(dueDate), priority, NotDone)]
      && r.value.nextId == s.nextId + 1
      && Synced(r.value)
  {
    var task := Task(s.nextId, title, description, category, Some(dueDate), priority, NotDone);
    var tasks := s.tasks + [task];
    AllDatedAppend(s.tasks, [task]);
    Save(Store(tasks, s.nextId + 1, s.file))
  }

  /** The position of the first task with identifier `id`: the task the
      `for task in self._tasks` loops stop at. */
  function FirstIndex(tasks: seq<Task>, id: int): (r: Option<nat>)
    ensures r.None? <==> !HasId(tasks, id)
    ensures r.Some? ==>
      && r.value < |tasks|
      && tasks[r.value].taskId == id
      && forall j | 0 <= j < r.value :: tasks[j].taskId != id
  {
    FirstIndexFrom(tasks, id, 0)
  }

  function FirstIndexFrom(tasks: seq<Task>, id: int, from: nat): (r: Option<nat>)
    requires from <= |tasks|
    ensures r.None? <==> forall j | from <= j < |tasks| :: tasks[j].taskId != id
    ensures r.Some? ==>
      && from <= r.value < |tasks|
      && tasks[r.value].taskId == id
      && forall j | from <= j < r.value :: tasks[j].taskId != id
    decreases |tasks| - from
  {
    if from == |tasks| then None
    else if tasks[from].taskId == id then Some(from)
    else FirstIndexFrom(tasks, id, from + 1)
  }

  /** `delete_task`: remove the first task with the identifier and save, or
      report that there is none and change nothing. */
  function Delete(s: Store, id: int): (r: Result<Reply, SaveError>)
    ensures !HasId(s.tasks, id) ==> r == Success(Reply(s, false))
    ensures r.Success? ==> (r.value.found <==> HasId(s.tasks, id))
    ensures r.Success? && r.value.found ==>
      var i := FirstIndex(s.tasks, id).value;
      && r.value.store.tasks == s.tasks[..i] + s.tasks[i + 1..]
      && r.value.store.nextId == s.nextId
      && Synced(r.value.store)
    ensures HasId(s.tasks, id) ==>
      var i := FirstIndex(s.tasks, id).value;
      r.Success? <==> AllDated(s.tasks[..i] + s.tasks[i + 1..])
    ensures r.Failure? ==> HasId(s.tasks, id) && !AllDated(s.tasks)
  {
    match FirstIndex(s.tasks, id)
    case None => Success(Reply(s, false))
    case Some(i) =>
      var rest := s.tasks[..i] + s.tasks[i + 1..];
      match Save(s.(tasks := rest))
      case Failure(e) =>
        assert rest[e.position] in s.tasks;
        Failure(e)
      case Success(saved) => Success(Reply(saved, true))
  }

  /** The keyword arguments of `update_task_info`: a new value for any
      subset of the fields other than the identifier. */
  datatype PartialUpdate = PartialUpdate(
    title: Option<string>,
    description: Option<string>,
    category: Option<string>,
    dueDate: Option<CalendarDate>,
    priority: Option<string>,
    status: Option<string>)

  const NoUpdate: PartialUpdate := PartialUpdate(None, None, None, None, None, None)

  /** The value an update assigns to attribute `k`, if it supplies one. */
  function Assigned(u: PartialUpdate, k: Key): Option<Attr> {
    match k
    case Title => if u.title.Some? then Some(TextAttr(u.title.value)) else None
    case Description => if u.description.Some? then Some(TextAttr(u.description.value)) else None
    case Category => if u.category.Some? then Some(TextAttr(u.category.value)) else None
    case DueDate => if u.dueDate.Some? then Some(DateAttr(u.dueDate)) else None
    case Priority => if u.priority.Some? then Some(TextAttr(u.priority.value)) else None
    case Status => if u.status.Some? then Some(TextAttr(u.status.value)) else None
    case _ => None
  }

  /** The attribute assignments an update performs, keyed by attribute name:
      the `**kwargs` mapping of `update_task_info`. */
  function Assignments(u: PartialUpdate): (m: map<Key, Attr>)
    ensures m.Keys <= AttributeNames
    ensures TaskId !in m
    ensures u == NoUpdate ==> m == map[]
  {
    map k | k in AttributeNames && Assigned(u, k).Some? :: Assigned(u, k).value
  }

  /** `setattr(task, key, value)` for every supplied field: the supplied
      attributes are overwritten, the others (the identifier among them)
      keep their values. */
  function Apply(t: Task, u: PartialUpdate): (r: Task)
    ensures r.taskId == t.taskId
  {
    Task(t.taskId,
         u.title.GetOr(t.title),
         u.description.GetOr(t.description),
         u.category.GetOr(t.category),
         if u.dueDate.Some? then u.dueDate else t.dueDate,
         u.priority.GetOr(t.priority),
         u.status.GetOr(t.status))
  }

  /** The update performs exactly its assignments on the attribute
      dictionary: supplied attributes are overwritten, the others kept. */
  lemma ApplyIsSetattr(t: Task, u: PartialUpdate)
    ensures Attributes(Apply(t, u)) == Attributes(t) + Assignments(u)
  {
    var lhs, rhs := Attributes(Apply(t, u)), Attributes(t) + Assignments(u);
    assert lhs.Keys == rhs.Keys;
    forall k | k in lhs.Keys
      ensures lhs[k] == rhs[k]
    {
      match k
      case TaskId =>
      case Title =>
      case Description =>
      case Category =>
      case DueDate =>
      case Priority =>
      case Status =>
    }
  }

  /** `update_task_info`: apply the update to the first task with the
      identifier and save, or report that there is none and change nothing. */
  function UpdateInfo(s: Store, id: int, u: PartialUpdate): (r: Result<Reply, SaveError>)
    ensures !HasId(s.tasks, id) ==> r == Success(Reply(s, false))
    ensures r.Success? ==> (r.value.found <==> HasId(s.tasks, id))
    ensures r.Success? && r.value.found ==>
      var i := FirstIndex(s.tasks, id).value;
      && r.value.store.tasks == s.tasks[i := Apply(s.tasks[i], u)]
      && r.value.store.nextId == s.nextId
      && Synced(r.value.store)
    ensures HasId(s.tasks, id) ==>
      var i := FirstIndex(s.tasks, id).value;
      r.Success? <==> AllDated(s.tasks[i := Apply(s.tasks[i], u)])
    ensures AllDated(s.tasks) ==> r.Success?
    ensures r.Failure? ==> HasId(s.tasks, id)
  {
    match FirstIndex(s.tasks, id)
    case None => Success(Reply(s, false))
    case Some(i) =>
      match Save(s.(tasks := s.tasks[i := Apply(s.tasks[i], u)]))
      case Failure(e) => Failure(e)
      case Success(saved) => Success(Reply(saved, true))
  }

  /** `update_task_status`: set the status of the first task with the
      identifier and save, or report that there is none and change nothing. */
  function UpdateStatus(s: Store, id: int, status: string): (r: Result<Reply, SaveError>)
    ensures !HasId(s.tasks, id) ==> r == Success(Reply(s, false))
    ensures r.Success? ==> (r.value.found <==> HasId(s.tasks, id))
    ensures r.Success? && r.value.found ==>
      var i := FirstIndex(s.tasks, id).value;
      && |r.value.store.tasks| == |s.tasks|
      && r.value.store.tasks[i] == s.tasks[i].(status := status)
      && (forall j | 0 <= j < |s.tasks| && j != i :: r.value.store.tasks[j] == s.tasks[j])
      && r.value.store.nextId == s.nextId
      && Synced(r.value.store)
    ensures r.Success? <==> !HasId(s.tasks, id) || AllDated(s.tasks)
    ensures r.Failure? ==> HasId(s.tasks, id)
  {
    match FirstIndex(s.tasks, id)
    case None => Success(Reply(s, false))
    case Some(i) =>
      match Save(s.(tasks := s.tasks[i := s.tasks[i].(status := status)]))
      case Failure(e) => Failure(e)
      case Success(saved) => Success(Reply(saved, true))
  }

  /** `task.search(**kwargs)` as a predicate on tasks. */
  function MatcherFor(c: Criteria): Task -> bool {
    t => Matches(t, c)
  }

  function IntendedMatcherFor(c: Criteria): Task -> bool {
    t => MatchesIntended(t, c)
  }

  /** `search_task`: the tasks that `Task.search` accepts, in store order. */
  function Search(s: Store, c: Criteria): (r: seq<Task>)
    ensures forall t :: t in r <==> t in s.tasks && Matches(t, c)
    ensures c.Empty() ==> r == []
  {
    FilterNone(s.tasks, MatcherFor(c));
    Filter(s.tasks, MatcherFor(c))
  }

  /** `search_task` over the intended matcher. */
  function SearchIntended(s: Store, c: Criteria): (r: seq<Task>)
    ensures forall t :: t in r <==> t in s.tasks && MatchesIntended(t, c)
    ensures c.Empty() ==> r == []
  {
    FilterNone(s.tasks, IntendedMatcherFor(c));
    Filter(s.tasks, IntendedMatcherFor(c))
  }

  /** Adding keeps the invariant. */
  lemma AddPreservesInvariant(s: Store, title: string, description: string, category: string,
                              dueDate: CalendarDate, priority: string)
    requires Invariant(s)
    requires Add(s, title, description, category, dueDate, priority).Success?
    ensures Invariant(Add(s, title, description, category, dueDate, priority).value)
  {
    AddKeepsIdsFresh(s, title, description, category, dueDate, priority);
  }

  /** The identifier `add_task` assigns is not in use, the counter stays
      above every identifier, and unique identifiers stay unique. */
  lemma AddKeepsIdsFresh(s: Store, title: string, description: string, category: string,
                         dueDate: CalendarDate, priority: string)
    requires Fresh(s)
    requires Add(s, title, description, category, dueDate, priority).Success?
    ensures !HasId(s.tasks, s.nextId)
    ensures Fresh(Add(s, title, description, category, dueDate, priority).value)
    ensures UniqueIds(s.tasks) ==> UniqueIds(Add(s, title, description, category, dueDate, priority).value.tasks)
  {
    var t := Task(s.nextId, title, description, category, Some(dueDate), priority, NotDone);
    AppendKeepsIds(s.tasks, t, s.nextId + 1);
  }

  /** Appending a task whose identifier is above all others keeps
      identifiers below the next bound and keeps them unique. */
  lemma AppendKeepsIds(tasks: seq<Task>, t: Task, bound: int)
    requires IdsBelow(tasks, t.taskId) && t.taskId < bound
    ensures !HasId(tasks, t.taskId)
    ensures IdsBelow(tasks + [t], bound)
    ensures UniqueIds(tasks) ==> UniqueIds(tasks + [t])
  {
    var all := tasks + [t];
    assert forall i | 0 <= i < |tasks| :: all[i] == tasks[i];
  }

  /** Deleting keeps the invariant. */
  lemma DeletePreservesInvariant(s: Store, id: int)
    requires Invariant(s)
    requires Delete(s, id).Success?
    ensures Invariant(Delete(s, id).value.store)
  {
    DeleteKeepsIdsFresh(s, id);
  }

  /** Deleting never lowers the counter, so the counter stays above every
      identifier, and unique identifiers stay unique. */
  lemma DeleteKeepsIdsFresh(s: Store, id: int)
    requires Fresh(s)
    requires Delete(s, id).Success?
    ensures Fresh(Delete(s, id).value.store)
    ensures Delete(s, id).value.store.nextId == s.nextId
    ensures UniqueIds(s.tasks) ==> UniqueIds(Delete(s, id).value.store.tasks)
  {
    var r := Delete(s, id).value;
    if r.found {
      RemoveAtKeepsIds(s.tasks, FirstIndex(s.tasks, id).value, s.nextId);
    }
  }

  /** Removing one position keeps every identifier below a bound and keeps
      unique identifiers unique. */
  lemma RemoveAtKeepsIds(tasks: seq<Task>, i: nat, bound: int)
    requires i < |tasks|
    ensures IdsBelow(tasks, bound) ==> IdsBelow(tasks[..i] + tasks[i + 1..], bound)
    ensures UniqueIds(tasks) ==> UniqueIds(tasks[..i] + tasks[i + 1..])
  {
    var rest := tasks[..i] + tasks[i + 1..];
    assert forall j | 0 <= j < |rest| :: rest[j] == tasks[if j < i then j else j + 1];
    if UniqueIds(tasks) {
      forall a, b | 0 <= a < b < |rest|
        ensures rest[a].taskId != rest[b].taskId
      {
        var a', b' := if a < i then a else a + 1, if b < i then b else b + 1;
        assert rest[a] == tasks[a'] && rest[b] == tasks[b'];
      }
    }
  }

  /** Updating keeps the invariant. */
  lemma UpdateInfoPreservesInvariant(s: Store, id: int, u: PartialUpdate)
    requires Invariant(s)
    requires UpdateInfo(s, id, u).Success?
    ensures Invariant(UpdateInfo(s, id, u).value.store)
  {
    UpdateInfoKeepsIds(s, id, u);
  }

  /** A task loaded without a date does not block the store for good: when
      it is the only undated task, deleting it succeeds, and so does an
      update that supplies a due date, which leaves every task dated. */
  lemma UndatedTaskCanBeRepaired(s: Store, id: int, d: CalendarDate)
    requires HasId(s.tasks, id)
    requires forall j | 0 <= j < |s.tasks| && j != FirstIndex(s.tasks, id).value :: s.tasks[j].dueDate.Some?
    ensures Delete(s, id).Success? && Delete(s, id).value.found
    ensures var r := UpdateInfo(s, id, NoUpdate.(dueDate := Some(d)));
      r.Success? && r.value.found && AllDated(r.value.store.tasks)
  {
    var i := FirstIndex(s.tasks, id).value;
    var rest := s.tasks[..i] + s.tasks[i + 1..];
    forall j | 0 <= j < |rest|
      ensures rest[j].dueDate.Some?
    {
      if j < i {
        assert rest[j] == s.tasks[j];
      } else {
        assert rest[j] == s.tasks[j + 1];
      }
    }
  }

  /** Updating changes no identifier: the identifiers in the list are the
      same, position by position. */
  lemma UpdateInfoKeepsIds(s: Store, id: int, u: PartialUpdate)
    requires UpdateInfo(s, id, u).Success?
    ensures var t := UpdateInfo(s, id, u).value.store.tasks;
      |t| == |s.tasks| && forall i | 0 <= i < |t| :: t[i].taskId == s.tasks[i].taskId
    ensures Fresh(s) ==> Fresh(UpdateInfo(s, id, u).value.store)
    ensures UniqueIds(s.tasks) ==> UniqueIds(UpdateInfo(s, id, u).value.store.tasks)
  {
    var r := UpdateInfo(s, id, u).value;
    if r.found {
      var i := FirstIndex(s.tasks, id).value;
      ReplaceKeepsIds(s.tasks, i, Apply(s.tasks[i], u), s.nextId);
    }
  }

  /** Replacing a task by one with the same identifier changes no
      identifier. */
  lemma ReplaceKeepsIds(tasks: seq<Task>, i: nat, t: Task, bound: int)
    requires i < |tasks| && t.taskId == tasks[i].taskId
    ensures forall j | 0 <= j < |tasks| :: tasks[i := t][j].taskId == tasks[j].taskId
    ensures IdsBelow(tasks, bound) ==> IdsBelow(tasks[i := t], bound)
    ensures UniqueIds(tasks) ==> UniqueIds(tasks[i := t])
  {
  }

  /** Changing the status is the update that supplies only the status. */
  lemma UpdateStatusIsStatusUpdate(s: Store, id: int, status: string)
    ensures UpdateStatus(s, id, status) == UpdateInfo(s, id, NoUpdate.(status := Some(status)))
  {
    match FirstIndex(s.tasks, id)
    case None =>
    case Some(i) =>
      assert Apply(s.tasks[i], NoUpdate.(status := Some(status))) == s.tasks[i].(status := status);
  }

  /** An update that supplies nothing still finds the task, keeps the list
      and saves it. */
  lemma EmptyUpdateStillSaves(s: Store, id: int)
    requires HasId(s.tasks, id)
    ensures UpdateInfo(s, id, NoUpdate).Success? <==> AllDated(s.tasks)
    ensures UpdateInfo(s, id, NoUpdate).Success? ==>
      && UpdateInfo(s, id, NoUpdate).value.found
      && UpdateInfo(s, id, NoUpdate).value.store.tasks == s.tasks
      && UpdateInfo(s, id, NoUpdate).value.store.file == Records(SaveAll(s.tasks).value)
  {
    var i := FirstIndex(s.tasks, id).value;
    assert s.tasks[i := Apply(s.tasks[i], NoUpdate)] == s.tasks;
  }

  /** Deleting the task just added restores the list; the counter stays
      advanced. */
  lemma AddThenDelete(s: Store, title: string, description: string, category: string,
                      dueDate: CalendarDate, priority: string)
    requires Fresh(s)
    requires Add(s, title, description, category, dueDate, priority).Success?
    ensures var s' := Add(s, title, description, category, dueDate, priority).value;
      && Delete(s', s.nextId).Success?
      && Delete(s', s.nextId).value.found
      && Delete(s', s.nextId).value.store.tasks == s.tasks
      && Delete(s', s.nextId).value.store.nextId == s.nextId + 1
  {
    var t := Task(s.nextId, title, description, category, Some(dueDate), priority, NotDone);
    AppendedIsFirst(s.tasks, t);
    assert AllDated(s.tasks);
  }

  /** A task appended with an identifier above all others is the first with
      that identifier, and removing it gives the original list back. */
  lemma AppendedIsFirst(tasks: seq<Task>, t: Task)
    requires IdsBelow(tasks, t.taskId)
    ensures FirstIndex(tasks + [t], t.taskId) == Some(|tasks|)
    ensures (tasks + [t])[..|tasks|] + (tasks + [t])[|tasks| + 1..] == tasks
  {
    var all := tasks + [t];
    assert all[|tasks|] == t;
    assert HasId(all, t.taskId);
    RemoveAppended(tasks, t);
  }

  /** With the intended matcher, searching for the identifier just assigned
      finds exactly the new task. */
  lemma AddThenSearchIntended(s: Store, title: string, description: string, category: string,
                              dueDate: CalendarDate, priority: string)
    requires Fresh(s)
    requires Add(s, title, description, category, dueDate, priority).Success?
    ensures SearchIntended(Add(s, title, description, category, dueDate, priority).value, IdOnly(s.nextId))
      == [Task(s.nextId, title, description, category, Some(dueDate), priority, NotDone)]
  {
    var t := Task(s.nextId, title, description, category, Some(dueDate), priority, NotDone);
    IntendedSearchFindsAppended(s.tasks, t);
  }

  /** In a list whose identifiers are all below that of an appended task,
      the intended search for that identifier finds exactly the appended task. */
  lemma IntendedSearchFindsAppended(tasks: seq<Task>, t: Task)
    requires IdsBelow(tasks, t.taskId)
    ensures Filter(tasks + [t], IntendedMatcherFor(IdOnly(t.taskId))) == [t]
  {
    var p := IntendedMatcherFor(IdOnly(t.taskId));
    FilterConcat(tasks, [t], p);
    forall i | 0 <= i < |tasks|
      ensures !p(tasks[i])
    {
      MatchesIntendedById(tasks[i], t.taskId);
    }
    FilterNone(tasks, p);
    MatchesIntendedById(t, t.taskId);
    assert Filter([t], p) == [t];
  }

  /** As written, a search with an identifier criterion returns nothing,
      whatever the store holds. */
  lemma SearchByIdFindsNothing(s: Store, c: Criteria)
    requires c.id.Some?
    ensures Search(s, c) == []
  {
    FilterNone(s.tasks, MatcherFor(c));
  }

  /** With unique identifiers, after a delete the intended search for the
      identifier finds nothing. */
  lemma DeleteThenSearchIntended(s: Store, id: int)
    requires UniqueIds(s.tasks)
    requires Delete(s, id).Success?
    ensures SearchIntended(Delete(s, id).value.store, IdOnly(id)) == []
  {
    var r := Delete(s, id).value;
    if r.found {
      IntendedSearchMissesRemoved(s.tasks, FirstIndex(s.tasks, id).value);
    } else {
      forall j | 0 <= j < |s.tasks|
        ensures !IntendedMatcherFor(IdOnly(id))(s.tasks[j])
      {
        MatchesIntendedById(s.tasks[j], id);
      }
      FilterNone(s.tasks, IntendedMatcherFor(IdOnly(id)));
    }
  }

  /** With unique identifiers, once the task at position `i` is removed the
      intended search for its identifier finds nothing. */
  lemma IntendedSearchMissesRemoved(tasks: seq<Task>, i: nat)
    requires UniqueIds(tasks) && i < |tasks|
    ensures Filter(tasks[..i] + tasks[i + 1..], IntendedMatcherFor(IdOnly(tasks[i].taskId))) == []
  {
    var id := tasks[i].taskId;
    var rest := tasks[..i] + tasks[i + 1..];
    var p := IntendedMatcherFor(IdOnly(id));
    forall j | 0 <= j < |rest|
      ensures !p(rest[j])
    {
      var k := if j < i then j else j + 1;
      assert rest[j] == tasks[k];
      MatchesIntendedById(rest[j], id);
    }
    FilterNone(rest, p);
  }

  /** Within one session a deleted identifier is never handed out again. */
  lemma DeletedIdNotReassigned(s: Store, id: int, title: string, description: string,
                               category: string, dueDate: CalendarDate, priority: string)
    requires Fresh(s) && HasId(s.tasks, id)
    ensures Delete(s, id).Success? ==> id < Delete(s, id).value.store.nextId
    ensures Delete(s, id).Success? &&
            Add(Delete(s, id).value.store, title, description, category, dueDate, priority).Success? ==>
      var s' := Add(Delete(s, id).value.store, title, description, category, dueDate, priority).value;
      s'.tasks[|s'.tasks| - 1].taskId != id
  {
    var i := FirstIndex(s.tasks, id).value;
    assert s.tasks[i].taskId == id;
  }

  /** Search results keep store order: the result for a list split in two
      is the result for the front followed by the result for the back. */
  lemma SearchKeepsOrder(s: Store, c: Criteria, k: nat)
    requires k <= |s.tasks|
    ensures Search(s, c) == Search(s.(tasks := s.tasks[..k]), c) + Search(s.(tasks := s.tasks[k..]), c)
  {
    assert s.tasks == s.tasks[..k] + s.tasks[k..];
    FilterConcat(s.tasks[..k], s.tasks[k..], MatcherFor(c));
  }
}
