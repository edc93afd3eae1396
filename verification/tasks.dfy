/** One task record and its search predicate (the `Task` class). */
module Tasks {
  import opened Wrappers
  import opened IsoDate
  import opened Text

  /** A task. The due date is absent when the loader could not decode the
      stored date string. */
  datatype Task = Task(
    taskId: int,
    title: string,
    description: string,
    category: string,
    dueDate: Option<CalendarDate>,
    priority: string,
    status: string)

  /** One attribute value as it sits in the instance dictionary `__dict__`. */
  datatype Attr = IntAttr(n: int) | TextAttr(text: string) | DateAttr(date: Option<CalendarDate>)

  /** The attribute names that occur as keys: `id`, `task_id`, `title`,
      `description`, `category`, `due_date`, `priority`, `status`. */
  datatype Key = Id | TaskId | Title | Description | Category | DueDate | Priority | Status

  /** The attribute names the constructor sets. */
  const AttributeNames: set<Key> := {TaskId, Title, Description, Category, DueDate, Priority, Status}

  /** The instance dictionary that the constructor fills in: each of the
      seven arguments is stored unchanged under its attribute name; the
      identifier is stored under `task_id`, and nothing under `id`. */
  function Attributes(t: Task): (a: map<Key, Attr>)
    ensures a.Keys == AttributeNames
    ensures Id !in a
  {
    map[
      TaskId := IntAttr(t.taskId),
      Title := TextAttr(t.title),
      Description := TextAttr(t.description),
      Category := TextAttr(t.category),
      DueDate := DateAttr(t.dueDate),
      Priority := TextAttr(t.priority),
      Status := TextAttr(t.status)]
  }

  /** `__dict__.get(key)`. */
  function Get(a: map<Key, Attr>, key: Key): Option<Attr> {
    if key in a then Some(a[key]) else None
  }

  /** The constructor loses nothing: the attribute dictionary determines
      every field of the task. */
  lemma AttributesDetermineTask(t: Task, u: Task)
    ensures Attributes(t) == Attributes(u) <==> t == u
  {
    if Attributes(t) == Attributes(u) {
      assert Attributes(t)[TaskId] == Attributes(u)[TaskId];
      assert Attributes(t)[Title] == Attributes(u)[Title];
      assert Attributes(t)[Description] == Attributes(u)[Description];
      assert Attributes(t)[Category] == Attributes(u)[Category];
      assert Attributes(t)[DueDate] == Attributes(u)[DueDate];
      assert Attributes(t)[Priority] == Attributes(u)[Priority];
      assert Attributes(t)[Status] == Attributes(u)[Status];
    }
  }

  /** Search criteria: the keyword arguments of `search`, each one absent
      (not passed, or passed as `None`) or present. */
  datatype Criteria = Criteria(
    id: Option<int>,
    title: Option<string>,
    description: Option<string>,
    category: Option<string>,
    dueDate: Option<CalendarDate>,
    priority: Option<string>,
    status: Option<string>)
  {
    /** Every criterion is absent. */
    predicate Empty() {
      && id.None? && title.None? && description.None? && category.None?
      && dueDate.None? && priority.None? && status.None?
    }
  }

  const NoCriteria: Criteria := Criteria(None, None, None, None, None, None, None)

  /** Criteria holding only an identifier. */
  function IdOnly(k: int): Criteria {
    NoCriteria.(id := Some(k))
  }

  /** A text criterion: absent, or equal to the attribute once both sides
      are lower-cased. */
  predicate TextMatches(a: map<Key, Attr>, key: Key, v: Option<string>) {
    match v
    case None => true
    case Some(s) =>
      match Get(a, key)
      case Some(TextAttr(text)) => Lower(text) == Lower(s)
      case _ => false
  }

  /** The checks of every criterion except the identifier. */
  predicate OtherCriteriaMatch(t: Task, c: Criteria) {
    var a := Attributes(t);
    && (c.dueDate.Some? ==> Get(a, DueDate) == Some(DateAttr(Some(c.dueDate.value))))
    && TextMatches(a, Title, c.title)
    && TextMatches(a, Description, c.description)
    && TextMatches(a, Category, c.category)
    && TextMatches(a, Priority, c.priority)
    && TextMatches(a, Status, c.status)
  }

  /** `Task.search` as written: no match for empty criteria; otherwise every
      present criterion must hold. The identifier is looked up under the
      attribute name `id`. */
  predicate Matches(t: Task, c: Criteria) {
    && !c.Empty()
    && (c.id.Some? ==> Get(Attributes(t), Id) == Some(IntAttr(c.id.value)))
    && OtherCriteriaMatch(t, c)
  }

  /** `Task.search` with the identifier criterion compared against
      `task_id`, the attribute the constructor actually sets. */
  predicate MatchesIntended(t: Task, c: Criteria) {
    && !c.Empty()
    && (c.id.Some? ==> t.taskId == c.id.value)
    && OtherCriteriaMatch(t, c)
  }

  /** The matching rule in terms of the task's fields. */
  lemma MatchesIff(t: Task, c: Criteria)
    ensures Matches(t, c) <==>
      && !c.Empty()
      && c.id.None?
      && (c.dueDate.Some? ==> t.dueDate == c.dueDate)
      && (c.title.Some? ==> Lower(t.title) == Lower(c.title.value))
      && (c.description.Some? ==> Lower(t.description) == Lower(c.description.value))
      && (c.category.Some? ==> Lower(t.category) == Lower(c.category.value))
      && (c.priority.Some? ==> Lower(t.priority) == Lower(c.priority.value))
      && (c.status.Some? ==> Lower(t.status) == Lower(c.status.value))
  {
  }

  /** Empty criteria match no task at all. */
  lemma EmptyCriteriaMatchNothing(t: Task, c: Criteria)
    requires c.Empty()
    ensures !Matches(t, c) && !MatchesIntended(t, c)
  {
  }

  /** As written, a present identifier criterion rejects every task, even
      the one whose `task_id` it names. */
  lemma IdCriterionNeverMatches(t: Task, c: Criteria)
    requires c.id.Some?
    ensures !Matches(t, c)
  {
  }

  /** The intended matcher finds a task by its identifier. */
  lemma MatchesIntendedById(t: Task, k: int)
    ensures MatchesIntended(t, IdOnly(k)) <==> t.taskId == k
  {
  }

  /** Without an identifier criterion the two matchers agree. */
  lemma MatchersAgreeWithoutId(t: Task, c: Criteria)
    requires c.id.None?
    ensures Matches(t, c) <==> MatchesIntended(t, c)
  {
  }

  /** Criteria with every text value lower-cased. */
  function Lowered(c: Criteria): Criteria {
    c.(title := LowerOpt(c.title), description := LowerOpt(c.description),
       category := LowerOpt(c.category), priority := LowerOpt(c.priority),
       status := LowerOpt(c.status))
  }

  function LowerOpt(v: Option<string>): Option<string> {
    match v
    case None => None
    case Some(s) => Some(Lower(s))
  }

  /** Text matching is case-insensitive: lower-casing the criteria (as the
      menu does with what the user types) never changes the answer. */
  lemma {:induction false} MatchesIgnoresCriteriaCase(t: Task, c: Criteria)
    ensures Matches(t, Lowered(c)) <==> Matches(t, c)
    ensures MatchesIntended(t, Lowered(c)) <==> MatchesIntended(t, c)
  {
    var a := Attributes(t);
    TextMatchesIgnoresCase(a, Title, c.title);
    TextMatchesIgnoresCase(a, Description, c.description);
    TextMatchesIgnoresCase(a, Category, c.category);
    TextMatchesIgnoresCase(a, Priority, c.priority);
    TextMatchesIgnoresCase(a, Status, c.status);
    assert Lowered(c).Empty() <==> c.Empty();
    assert OtherCriteriaMatch(t, Lowered(c)) <==> OtherCriteriaMatch(t, c);
  }

  lemma TextMatchesIgnoresCase(a: map<Key, Attr>, key: Key, v: Option<string>)
    ensures TextMatches(a, key, LowerOpt(v)) <==> TextMatches(a, key, v)
  {
    if v.Some? {
      LowerIdempotent(v.value);
    }
  }

  /** `more` has every criterion of `fewer`, with the same value, and
      possibly more. */
  predicate Extends(more: Criteria, fewer: Criteria) {
    && (fewer.id.Some? ==> more.id == fewer.id)
    && (fewer.title.Some? ==> more.title == fewer.title)
    && (fewer.description.Some? ==> more.description == fewer.description)
    && (fewer.category.Some? ==> more.category == fewer.category)
    && (fewer.dueDate.Some? ==> more.dueDate == fewer.dueDate)
    && (fewer.priority.Some? ==> more.priority == fewer.priority)
    && (fewer.status.Some? ==> more.status == fewer.status)
  }

  /** Adding criteria to a non-empty set can turn a match into a non-match,
      never the reverse. */
  lemma MoreCriteriaNarrow(t: Task, fewer: Criteria, more: Criteria)
    requires !fewer.Empty() && Extends(more, fewer)
    ensures Matches(t, more) ==> Matches(t, fewer)
    ensures MatchesIntended(t, more) ==> MatchesIntended(t, fewer)
  {
  }

  /** The non-empty requirement above cannot be dropped: the empty set
      matches nothing, while one added criterion can match. */
  lemma EmptyCriteriaBreakNarrowing(t: Task)
    ensures Extends(NoCriteria.(title := Some(t.title)), NoCriteria)
    ensures !Matches(t, NoCriteria) && Matches(t, NoCriteria.(title := Some(t.title)))
  {
  }
}
