/** The file format of the store: `save_tasks` turns the task list into an
    array of records with ISO dates, `load_tasks` turns it back. JSON syntax
    itself is not modelled; the file is seen as what `json.load` makes of it. */
module Persistence {
  import opened Wrappers
  import opened IsoDate
  import opened Tasks

  /** One element of the stored array, keyed `id`, `title`, `description`,
      `category`, `due_date`, `priority`, `status`. */
  datatype TaskRecord = TaskRecord(
    id: int,
    title: string,
    description: string,
    category: string,
    dueDate: string,
    priority: string,
    status: string)

  /** The file as `json.load` sees it: content it cannot parse (an empty
      file included), or an array of records. */
  datatype FileImage = Unparseable | Records(records: seq<TaskRecord>)

  /** The `TypeError` that `datetime_encoder` raises for a non-date. */
  datatype EncodeError = NotADate

  /** `save_tasks` aborted: the task at `position` has no date to encode. */
  datatype SaveError = UnencodableDate(position: nat)

  /** `datetime_encoder`: a date becomes its ISO string; anything else is
      rejected. */
  function EncodeDate(v: Option<CalendarDate>): (r: Result<string, EncodeError>)
    ensures r.Success? <==> v.Some?
    ensures r.Success? ==> WellShaped(r.value)
  {
    match v
    case Some(d) => Success(Format(d))
    case None => Failure(NotADate)
  }

  /** `datetime_decoder`: an ISO string becomes a date; a malformed string
      gives `None` instead of an error. */
  function DecodeDate(s: string): Option<CalendarDate> {
    Parse(s)
  }

  /** Whatever the decoder accepts, the encoder writes back unchanged. */
  lemma DecodeThenEncodeDate(s: string)
    requires DecodeDate(s).Some?
    ensures EncodeDate(DecodeDate(s)) == Success(s)
  {
    FormatParse(s);
  }

  /** Encoding a date and decoding the string gives back the date. */
  lemma DateRoundTrip(v: Option<CalendarDate>)
    requires EncodeDate(v).Success?
    ensures DecodeDate(EncodeDate(v).value) == v
  {
    ParseFormat(v.value);
  }

  /** The loader's `Task(task['id'], ..., datetime_decoder(task['due_date']), ...)`. */
  function DecodeTask(r: TaskRecord): Task {
    Task(r.id, r.title, r.description, r.category, DecodeDate(r.dueDate), r.priority, r.status)
  }

  /** The dictionary `save_tasks` builds for one task; it fails exactly when
      the task has no date. */
  function EncodeTask(t: Task): (r: Result<TaskRecord, EncodeError>)
    ensures r.Success? <==> t.dueDate.Some?
  {
    match EncodeDate(t.dueDate)
    case Failure(e) => Failure(e)
    case Success(s) => Success(TaskRecord(t.taskId, t.title, t.description, t.category, s, t.priority, t.status))
  }

  /** Decoding an encoded task gives the task back. */
  lemma TaskRoundTrip(t: Task)
    requires EncodeTask(t).Success?
    ensures DecodeTask(EncodeTask(t).value) == t
  {
    DateRoundTrip(t.dueDate);
  }

  /** A record whose date string decodes is written back unchanged. */
  lemma RecordRoundTrip(r: TaskRecord)
    requires DecodeDate(r.dueDate).Some?
    ensures EncodeTask(DecodeTask(r)) == Success(r)
  {
    DecodeThenEncodeDate(r.dueDate);
  }

  /** Every task has a date the encoder accepts. */
  predicate AllDated(tasks: seq<Task>) {
    forall i | 0 <= i < |tasks| :: tasks[i].dueDate.Some?
  }

  lemma AllDatedAppend(a: seq<Task>, b: seq<Task>)
    ensures AllDated(a + b) <==> AllDated(a) && AllDated(b)
  {
    if AllDated(a + b) {
      assert forall i | 0 <= i < |a| :: (a + b)[i] == a[i];
      assert forall i | 0 <= i < |b| :: (a + b)[|a| + i] == b[i];
    }
  }

  /** The array `save_tasks` hands to `json.dump`. It is built task by task,
      so the first task without a date aborts the save. */
  function SaveAll(tasks: seq<Task>): (r: Result<seq<TaskRecord>, SaveError>)
    ensures r.Success? <==> AllDated(tasks)
    ensures r.Failure? ==>
      && r.error.position < |tasks|
      && tasks[r.error.position].dueDate.None?
      && forall j | 0 <= j < r.error.position :: tasks[j].dueDate.Some?
    ensures r.Success? ==>
      && |r.value| == |tasks|
      && forall i | 0 <= i < |tasks| :: EncodeTask(tasks[i]) == Success(r.value[i])
  {
    if |tasks| == 0 then Success([])
    else
      match EncodeTask(tasks[0])
      case Failure(_) => Failure(UnencodableDate(0))
      case Success(head) =>
        match SaveAll(tasks[1..])
        case Failure(e) => Failure(UnencodableDate(e.position + 1))
        case Success(rest) => Success([head] + rest)
  }

  /** The task list `load_tasks` returns: nothing for unparseable content,
      otherwise one task per record, in file order. */
  function LoadAll(f: FileImage): (tasks: seq<Task>)
    ensures f.Unparseable? ==> tasks == []
    ensures f.Records? ==> |tasks| == |f.records|
  {
    match f
    case Unparseable => []
    case Records(rs) => DecodeAllElements(rs); DecodeAll(rs)
  }

  function DecodeAll(rs: seq<TaskRecord>): seq<Task> {
    if |rs| == 0 then [] else [DecodeTask(rs[0])] + DecodeAll(rs[1..])
  }

  lemma {:induction false} DecodeAllElements(rs: seq<TaskRecord>)
    ensures |DecodeAll(rs)| == |rs|
    ensures forall i | 0 <= i < |rs| :: DecodeAll(rs)[i] == DecodeTask(rs[i])
  {
    if |rs| > 0 {
      DecodeAllElements(rs[1..]);
    }
  }

  /** Saving and loading back reproduces the task list: same identifiers,
      fields, dates and order. */
  lemma SaveThenLoad(tasks: seq<Task>)
    requires SaveAll(tasks).Success?
    ensures LoadAll(Records(SaveAll(tasks).value)) == tasks
  {
    var rs := SaveAll(tasks).value;
    DecodeAllElements(rs);
    forall i | 0 <= i < |tasks|
      ensures DecodeTask(rs[i]) == tasks[i]
    {
      TaskRoundTrip(tasks[i]);
    }
  }

  /** Loading an array and saving it again writes the same array exactly
      when every stored date string decodes. */
  lemma LoadThenSave(rs: seq<TaskRecord>)
    ensures SaveAll(LoadAll(Records(rs))) == Success(rs) <==>
      forall i | 0 <= i < |rs| :: Parse(rs[i].dueDate).Some?
  {
    var tasks := LoadAll(Records(rs));
    DecodeAllElements(rs);
    if forall i | 0 <= i < |rs| :: Parse(rs[i].dueDate).Some? {
      assert AllDated(tasks);
      var saved := SaveAll(tasks).value;
      forall i | 0 <= i < |rs|
        ensures saved[i] == rs[i]
      {
        RecordRoundTrip(rs[i]);
      }
      assert saved == rs;
    } else {
      var i :| 0 <= i < |rs| && Parse(rs[i].dueDate).None?;
      assert tasks[i].dueDate.None?;
      assert !AllDated(tasks);
    }
  }
}
