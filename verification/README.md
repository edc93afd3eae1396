# Task store model

A Dafny model of the core of a small personal task tracker. The core is the
`Task` record with its search predicate, and the `DataBase` store. The store
keeps an ordered list of tasks and a counter for the next identifier. It
adds, deletes, updates and searches tasks, and rewrites its JSON file after
every successful change. Dates are stored as ISO 8601 calendar strings
(`YYYY-MM-DD`).

Modules, one concept each:

- `Wrappers` (wrappers.dfy): `Option` for Python's `None`-or-value, and `Result` for an operation that either returns or raises.
- `Text` (text.dfy): the lower-casing that `str.lower()` performs on the labels.
- `IsoDate` (iso_date.dfy): the `date` type (year 1 to 9999, Gregorian leap years). Also `date.isoformat()` as `Format` and `date.fromisoformat()` as `Parse`.
- `Sequences` (sequences.dfy): the order-preserving filter behind the list comprehension in `search_task`.
- `Tasks` (tasks.dfy): the task record and its attribute dictionary. Also the typed `Criteria` that replace the keyword arguments of `Task.search`, and the matcher.
- `Persistence` (persistence.dfy): the record array that `save_tasks` writes and `load_tasks` reads. The file is seen as what `json.load` makes of it: `Unparseable`, or an array of records.
- `Database` (database.dfy): the store as an immutable value `Store(tasks, nextId, file)`. `Open` builds a store from a file image. Every other operation is a function of the old store. `Save`, `Add`, `Delete`, `UpdateInfo` and `UpdateStatus` return the new store, and the last three also return whether the identifier was found. `Search` returns the selected tasks. An operation whose save raises returns `Failure`.
- `Scenarios` (scenarios.dfy): concrete runs taken from the unit tests, plus short runs of add, update, delete, reopen and the date codec.

Two invariants tie the store together:

- `Fresh`: every stored identifier is below the counter.
- `Synced`: loading the file image gives back the in-memory list.

Every operation keeps both. `Synced` rests on the codec round trip, saving and then loading.

Behaviours of the code worth knowing, each stated and proved in the model:

- Identifiers are not reused within one session, because the counter only grows (`Database.DeletedIdNotReassigned`). Reopening recomputes the counter from the file, so a deleted highest identifier is handed out again after a restart (`Scenarios.ReopenReusesDeletedHighestId`).
- The identifier criterion of a search is looked up under the wrong attribute name and never matches (see Findings).
- A stored `due_date` that does not decode loads as a task without a date. The decoder returns `None` for any string it rejects and for any non-string value. Every save raises in `datetime_encoder` while such a task is in the list. So adding a task fails, and so does deleting or updating any other task. When it is the only task without a date, deleting it succeeds, and so does an update that supplies a new due date for it (`Database.UndatedTaskCanBeRepaired`). With two undated tasks, deleting one still fails because of the other. The model returns `Failure(UnencodableDate(position))` when a save raises.
- Only a JSON syntax error (an empty file among them) makes the loader return the empty list by catching the error. Well-formed JSON loads whatever its loop reads: an array of records loads task by task, and an empty object or empty string loads as no tasks. Other shapes make the loop raise.

## Model

| member | source | states |
|---|---|---|
| `Tasks.Attributes` | task/task.py:5-22 | the constructor sets exactly the seven attributes; the identifier lives under `task_id` and nothing is stored under `id` |
| `Tasks.AttributesDetermineTask` | task/task.py:16-22 | the constructor stores every argument unchanged: two tasks have the same attribute dictionary exactly when they are equal |
| `Tasks.Matches` | task/task.py:37-54 | `Task.search` as written; characterised field by field by `Tasks.MatchesIff`, and shown never to accept an identifier criterion by `Tasks.IdCriterionNeverMatches` |
| `Tasks.MatchesIntended` | task/task.py:37-54 | `Task.search` with the identifier compared against `task_id`; `Tasks.MatchesIntendedById` shows it selects exactly the task with that identifier, and `Tasks.MatchersAgreeWithoutId` that it agrees with `Tasks.Matches` otherwise |
| `Tasks.MatchesIff` | task/task.py:43-54 | a task matches iff the criteria are not all absent, no identifier is given, the due date (if given) is equal, and each given text field is equal after lower-casing both sides |
| `Tasks.EmptyCriteriaMatchNothing` | task/task.py:43-44 | all-absent criteria match no task, with either matcher |
| `Tasks.IdCriterionNeverMatches` | task/task.py:48-49 | as written, a present identifier criterion makes every match fail |
| `Tasks.MatchesIntendedById` | task/task.py:48-49 | with the identifier compared against `task_id`, criteria holding only `id = k` match exactly the task whose identifier is k |
| `Tasks.MatchersAgreeWithoutId` | task/task.py:45-54 | without an identifier criterion the as-written and intended matchers give the same answer |
| `Tasks.MatchesIgnoresCriteriaCase` | task/task.py:52-53 | lower-casing every text criterion never changes whether a task matches |
| `Tasks.MoreCriteriaNarrow` | task/task.py:45-54 | extending a non-empty criteria set can turn a match into a non-match, never the reverse |
| `Tasks.EmptyCriteriaBreakNarrowing` | task/task.py:43-47 | the non-empty condition is needed: the empty set matches nothing, but one added criterion can match |
| `Text.Lower` | task/task.py:53 | lower-casing keeps the length and maps each character on its own; no upper-case letter remains, and text without upper-case letters is unchanged |
| `Text.LowerIdempotent` | task/task.py:53 | lower-casing twice is lower-casing once |
| `IsoDate.Format` | database/database.py:48-50 | the ISO text of a date always has the shape `DDDD-DD-DD` |
| `IsoDate.Parse` | database/database.py:53-57 | the decoder accepts only strings of the shape `DDDD-DD-DD`, and yields no date otherwise |
| `IsoDate.ParseFormat` | database/database.py:48-57 | decoding the text the encoder writes gives the same date back |
| `IsoDate.FormatParse` | database/database.py:53-57 | a string the decoder accepts is exactly the text the encoder writes for the decoded date |
| `IsoDate.ParseAcceptsExactlyFormatted` | database/database.py:48-57 | the decoder accepts a string iff some date encodes to it |
| `Persistence.EncodeDate` | database/database.py:48-51 | the encoder succeeds exactly on a date and rejects anything else |
| `Persistence.DecodeDate` | database/database.py:53-57 | `datetime_decoder`: a rejected string gives no date instead of raising; `Persistence.DecodeThenEncodeDate` and `Persistence.DateRoundTrip` make it the inverse of `Persistence.EncodeDate` |
| `Persistence.DecodeThenEncodeDate` | database/database.py:53-57 | a date string the decoder accepts is written back unchanged |
| `Persistence.DateRoundTrip` | database/database.py:48-57 | an encoded date decodes to the same date |
| `Persistence.EncodeTask` | database/database.py:98-107 | the record for one task can be built exactly when the task has a date |
| `Persistence.DecodeTask` | database/database.py:70-76 | the `Task(...)` call of the load loop; `Persistence.TaskRoundTrip` and `Persistence.RecordRoundTrip` make it the inverse of `Persistence.EncodeTask` |
| `Persistence.TaskRoundTrip` | database/database.py:70-76 | decoding the record built from a task gives the same identifier, fields and date |
| `Persistence.RecordRoundTrip` | database/database.py:99-107 | a stored record whose date string decodes is written back unchanged |
| `Persistence.SaveAll` | database/database.py:89-108 | the record array is built exactly when every task has a date; otherwise the failure names the first task without one; on success there is one record per task, in order |
| `Persistence.LoadAll` | database/database.py:59-79 | unparseable content loads as the empty list; an array loads as one task per record |
| `Persistence.DecodeAll` | database/database.py:69-77 | the load loop over the record array; `Persistence.DecodeAllElements` shows it yields one task per record, each the decoding of that record, in file order |
| `Persistence.DecodeAllElements` | database/database.py:69-77 | the loaded list is the per-record decoding, in file order |
| `Persistence.SaveThenLoad` | database/database.py:59-108 | saving and loading back reproduces the list: same identifiers, fields, dates and order |
| `Persistence.LoadThenSave` | database/database.py:59-108 | loading an array and saving it again writes the same array iff every stored date string decodes |
| `Database.MaxId` | database/database.py:87 | the largest identifier of a non-empty list: no identifier exceeds it and some task has it |
| `Database.NextId` | database/database.py:81-87 | the next identifier is 1 for no tasks, otherwise one more than the largest identifier |
| `Database.Open` | database/database.py:18-26 | a freshly opened store keeps the file, satisfies both invariants, and its counter is 1 or the largest loaded identifier plus one |
| `Database.Save` | database/database.py:89-108 | saving succeeds exactly when every task has a date; on success the list and counter are unchanged and the file loads back as the list |
| `Database.Add` | database/database.py:110-125 | adding appends exactly one task with the old counter as identifier and the "not done" status, keeps earlier tasks, advances the counter by one and saves |
| `Database.FirstIndex` | database/database.py:134-135 | finds the first position holding the identifier, or reports that none does |
| `Database.Delete` | database/database.py:127-139 | delete reports found iff some task has the identifier; then it removes exactly the first such task, keeps the rest in order and the counter, and saves, succeeding exactly when every remaining task has a date; otherwise nothing changes |
| `Database.Apply` | database/database.py:161-162 | applying an update never changes the task identifier |
| `Database.ApplyIsSetattr` | database/database.py:161-162 | an update overwrites exactly the supplied attributes and keeps the others |
| `Database.UpdateInfo` | database/database.py:151-165 | update reports found iff some task has the identifier; then it replaces only the first such task by its updated form and saves, succeeding exactly when the updated list is fully dated (always so when the old one is); otherwise nothing changes |
| `Database.UpdateStatus` | database/database.py:167-180 | a status change succeeds exactly when the identifier is absent or every task has a date; it reports found iff some task has the identifier, then only the status of the first such task changes and the store saves; otherwise nothing changes |
| `Database.Search` | database/database.py:141-149 | the search result holds exactly the stored tasks the as-written matcher accepts, and is empty for all-absent criteria |
| `Database.SearchIntended` | database/database.py:141-149 | the same, over the intended matcher |
| `Database.AddPreservesInvariant` | database/database.py:110-125 | adding keeps both store invariants |
| `Database.AddKeepsIdsFresh` | database/database.py:121-124 | the identifier an add assigns is not in use, identifiers stay below the counter, and unique identifiers stay unique |
| `Database.DeletePreservesInvariant` | database/database.py:127-139 | deleting keeps both store invariants |
| `Database.DeleteKeepsIdsFresh` | database/database.py:127-139 | deleting never changes the counter, so identifiers stay below it, and unique identifiers stay unique |
| `Database.UpdateInfoPreservesInvariant` | database/database.py:151-165 | updating keeps both store invariants |
| `Database.UpdateInfoKeepsIds` | database/database.py:159-164 | updating changes no identifier, position by position |
| `Database.UpdateStatusIsStatusUpdate` | database/database.py:167-180 | a status change behaves exactly like an information update that supplies only the status |
| `Database.UndatedTaskCanBeRepaired` | database/database.py:127-165 | when the only undated task is the target, deleting it succeeds and an update supplying a due date succeeds and leaves every task dated |
| `Database.EmptyUpdateStillSaves` | database/database.py:159-164 | an update supplying nothing on a found identifier succeeds iff every task has a date; it then reports found, keeps the list and still rewrites the file |
| `Database.AddThenDelete` | database/database.py:110-139 | deleting the task just added restores the previous list, while the counter stays advanced |
| `Database.AddThenSearchIntended` | database/database.py:110-149 | with the intended matcher, searching for the identifier just assigned finds exactly the new task |
| `Database.SearchByIdFindsNothing` | database/database.py:141-149 | as written, a search with an identifier criterion returns nothing, whatever the store holds |
| `Database.DeleteThenSearchIntended` | database/database.py:127-149 | with unique identifiers, after a delete the intended search for that identifier finds nothing |
| `Database.DeletedIdNotReassigned` | database/database.py:121-139 | deleting a stored identifier leaves the counter above it, so within one session a following add never hands that identifier out again |
| `Database.SearchKeepsOrder` | database/database.py:148 | search results keep store order: the result for a split list is the front's result followed by the back's |
| `Sequences.Filter` | database/database.py:148 | the selection is no longer than the list and holds exactly the elements that satisfy the predicate |
| `Sequences.FilterConcat` | database/database.py:148 | filtering a concatenation is the concatenation of the filtered parts |
| `Scenarios.OpenEmptyFile` | test/test_DataBase.py:21-24 | an empty or unparseable file opens with no tasks and counter 1 |
| `Scenarios.OpenTwoRecords` | test/test_DataBase.py:26-52 | a file with tasks 1 and 2 opens with both, in order, and counter 3 |
| `Scenarios.Lifecycle` | database/database.py:110-180 | add, mark done, delete and delete again on an empty store give identifier 1, the new status, an empty store, and then not found |
| `Scenarios.UpdateTitle` | test/test_DataBase.py:89-94 | updating the title of task 1 changes the title and nothing else |
| `Scenarios.SearchCategoryIgnoresCase` | task/task.py:53 | criteria category "home" select the task filed under "Home" and not the one under "Work" |
| `Scenarios.ReopenReusesDeletedHighestId` | database/database.py:81-139 | after deleting the highest identifier the counter stays put, but reopening the saved file recomputes it so the identifier comes back |
| `Scenarios.FormatExamples` | database/database.py:48-50 | years are written with four digits and leading zeros |
| `Scenarios.ParseLeapDay` | database/database.py:53-57 | 29 February is accepted in a leap year |
| `Scenarios.ParseRejects` | database/database.py:53-57 | 29 February of a common year, a one-digit day and year 0 all decode to no date |

## Left out

- `main.py` (the `IOWorker` menu, `input`/`print`, the checks against `date.today()`, the priority and status label checks): this is the interactive collaborator, not store logic.
- File I/O and JSON syntax: `open`, `json.load`, `json.dump`, indentation and encoding are not modelled. The file is the value `FileImage`, and an unopenable file, which is fatal at startup, is not represented.
- `Persistence.LoadAll`: represents well-formed content only as an array of complete records with a string `due_date`; an empty JSON object or string is the empty array. A non-string `due_date` (such as `null` or a number) decodes to `None` in the source, and the model represents it by a string that does not decode, which gives the same task. Other shapes (a non-empty object or string, a number, `null`, an array holding a non-object) raise `TypeError`, and a missing key raises `KeyError`. These raising loads are not representable with typed records.
- `Database.Save`: a failing save returns `Failure` and no store. In the source the file has already been truncated when the encoder raises, and the in-memory change made before the save stays in place until the process dies.
- `IsoDate.Parse`: accepts exactly `YYYY-MM-DD` with ASCII digits, as `date.fromisoformat` does up to Python 3.10. Python 3.11 also accepts forms such as `YYYYMMDD` and week dates, which the encoder never writes.
- `Text.LowerChar`: lower-cases only ASCII `A`-`Z` and Cyrillic `U+0400`-`U+042F`, because full Unicode case mapping (which can change string length) is out of scope. All other characters are left unchanged.
- Reflection in `**kwargs`, `setattr` and `__dict__.get`: arbitrary keys creating new attributes, an `id` or `task_id` key passed to `update_task_info`, `AttributeError` from `.lower()` on a non-text value, and a failing `int(value)`. The typed `Criteria` and `PartialUpdate` records replace them.
- `Database.UpdateInfo`: `PartialUpdate` uses an absent field to mean "leave unchanged". In the source a keyword passed as `None` is assigned: `update_task_info(k, title=None)` sets the title to `None`, and `due_date=None` makes every later save raise. The menu drops `None` values before calling (main.py:58), so the model does not represent such calls.
- `Database.Add`: takes a calendar date. `add_task` accepts any value, so a non-date is appended and then the save raises. The menu always passes a parsed date (main.py:79), so the model does not represent such calls.
- `Task.__str__` and the `tasks`/`next_id` read-only properties: display formatting and plain field access.
- Duplicate identifiers on load: the loader does not check for them. Lemmas that need unique identifiers take `UniqueIds` as a precondition instead of assuming the store has it.
- Concurrency: the store is single-threaded and assumes it alone owns its file.

## Findings

| source | as written | input that shows it | evidently intended | confidence | as-written member | corrected member |
|---|---|---|---|---|---|---|
| task/task.py:48-49 | the `id` criterion is compared with `self.__dict__.get('id')`. The constructor stores the identifier as `task_id`, so the lookup yields `None` and the comparison is always false | after `add_task` on an empty store, `search_task(id=1)` returns `[]` although task 1 exists | compare the criterion with `task_id`, so that `search_task(id=k)` finds the task with identifier k | high; not executed | `Tasks.IdCriterionNeverMatches`, `Database.SearchByIdFindsNothing` | `Tasks.MatchesIntendedById`, `Database.AddThenSearchIntended` |

The store model keeps both matchers. `Database.Search` is the operation as written. `Database.SearchIntended` uses the corrected matcher, and the identifier properties (`AddThenSearchIntended`, `DeleteThenSearchIntended`) are proved for it. `Tasks.MatchersAgreeWithoutId` shows that the two agree on every criteria set without an identifier. The menu only ever builds such criteria sets.
