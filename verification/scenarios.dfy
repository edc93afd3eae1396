/** Concrete runs of the store: the repository's unit tests, plus short
    runs of add, update, delete, reopen and the date codec. */
module Scenarios {
  import opened Wrappers
  import opened IsoDate
  import opened Tasks
  import opened Persistence
  import opened Database
  import opened Text

  /** An empty or unparseable file opens as an empty store whose first
      identifier is 1. */
  lemma OpenEmptyFile()
    ensures Open(Unparseable).tasks == [] && Open(Unparseable).nextId == 1
    ensures Open(Records([])).tasks == [] && Open(Records([])).nextId == 1
  {
  }

  /** A file holding tasks 1 and 2 opens with both, in file order, and
      counter 3. */
  lemma OpenTwoRecords()
    ensures var s := Open(Records([
      TaskRecord(1, "Task 1", "Description 1", "Category 1", "2023-12-01", "high", "not done"),
      TaskRecord(2, "Task 2", "Description 2", "Category 2", "2023-12-02", "medium", "not done")]));
      && |s.tasks| == 2
      && s.tasks[0].taskId == 1
      && s.tasks[1].taskId == 2
      && s.nextId == 3
  {
    var rs := [
      TaskRecord(1, "Task 1", "Description 1", "Category 1", "2023-12-01", "high", "not done"),
      TaskRecord(2, "Task 2", "Description 2", "Category 2", "2023-12-02", "medium", "not done")];
    DecodeAllElements(rs);
    var s := Open(Records(rs));
    assert s.tasks[0].taskId == 1 && s.tasks[1].taskId == 2;
    assert s.nextId - 1 == 2;
  }

  /** Add, mark done, delete, delete again: identifiers start at 1, the
      status changes, the second delete reports not found. */
  lemma Lifecycle()
    ensures var s0 := Open(Unparseable);
      var r1 := Add(s0, "Buy milk", "2%", "errands", Date(2025, 1, 1), "low");
      && r1.Success?
      && r1.value.tasks == [Task(1, "Buy milk", "2%", "errands", Some(Date(2025, 1, 1)), "low", NotDone)]
      && var r2 := UpdateStatus(r1.value, 1, "done");
      && r2.Success? && r2.value.found
      && r2.value.store.tasks[0].status == "done"
      && var r3 := Delete(r2.value.store, 1);
      && r3.Success? && r3.value.found && r3.value.store.tasks == []
      && Delete(r3.value.store, 1) == Success(Reply(r3.value.store, false))
  {
    var s0 := Open(Unparseable);
    var r1 := Add(s0, "Buy milk", "2%", "errands", Date(2025, 1, 1), "low");
    var s1 := r1.value;
    assert s1.tasks[0].taskId == 1;
    assert FirstIndex(s1.tasks, 1) == Some(0);
    var r2 := UpdateStatus(s1, 1, "done");
    assert AllDated(s1.tasks[0 := s1.tasks[0].(status := "done")]);
    var s2 := r2.value.store;
    assert s2.tasks[0].taskId == 1;
    assert FirstIndex(s2.tasks, 1) == Some(0);
    var r3 := Delete(s2, 1);
    assert AllDated(s2.tasks[..0] + s2.tasks[1..]);
    assert !HasId(r3.value.store.tasks, 1);
  }

  /** Updating the title of task 1 changes it and nothing else. */
  lemma UpdateTitle()
    ensures var r1 := Add(Open(Unparseable), "Task 1", "Description 1", "Category 1", Date(2023, 12, 1), "high");
      && r1.Success?
      && var r2 := UpdateInfo(r1.value, 1, NoUpdate.(title := Some("Updated Task 1")));
      && r2.Success? && r2.value.found
      && r2.value.store.tasks == [Task(1, "Updated Task 1", "Description 1", "Category 1", Some(Date(2023, 12, 1)), "high", NotDone)]
  {
    var r1 := Add(Open(Unparseable), "Task 1", "Description 1", "Category 1", Date(2023, 12, 1), "high");
    assert FirstIndex(r1.value.tasks, 1) == Some(0);
    var u := NoUpdate.(title := Some("Updated Task 1"));
    assert AllDated(r1.value.tasks[0 := Apply(r1.value.tasks[0], u)]);
  }

  /** Searching for category "home" finds the task filed under "Home" only. */
  lemma SearchCategoryIgnoresCase()
    ensures var home := Task(1, "a", "b", "Home", Some(Date(2025, 1, 1)), "low", NotDone);
      var work := Task(2, "a", "b", "Work", Some(Date(2025, 1, 1)), "low", NotDone);
      Search(Store([home, work], 3, Unparseable), NoCriteria.(category := Some("home"))) == [home]
  {
    var home := Task(1, "a", "b", "Home", Some(Date(2025, 1, 1)), "low", NotDone);
    var work := Task(2, "a", "b", "Work", Some(Date(2025, 1, 1)), "low", NotDone);
    var c := NoCriteria.(category := Some("home"));
    LowerExamples();
    MatchesIff(home, c);
    MatchesIff(work, c);
    var p := MatcherFor(c);
    assert p(home) && !p(work);
    assert [home, work] == [home] + [work];
    Sequences.FilterConcat([home], [work], p);
  }

  lemma LowerExamples()
    ensures Lower("Home") == "home" && Lower("home") == "home"
    ensures Lower("Work")[0] == 'w'
  {
    assert LowerChar('H') == 'h';
    assert LowerChar('W') == 'w';
    assert Lower("Home") == "home";
    LowerIdempotent("Home");
  }

  /** Within a session a deleted highest identifier is not handed out again;
      after reopening the saved file the counter is recomputed from the
      remaining tasks and the identifier comes back. */
  lemma ReopenReusesDeletedHighestId()
    ensures var r1 := Add(Open(Unparseable), "a", "b", "c", Date(2025, 1, 1), "low");
      && r1.Success?
      && var r2 := Add(r1.value, "d", "e", "f", Date(2025, 1, 2), "high");
      && r2.Success?
      && var r3 := Delete(r2.value, 2);
      && r3.Success? && r3.value.found
      && r3.value.store.nextId == 3
      && Open(r3.value.store.file).nextId == 2
  {
    var r1 := Add(Open(Unparseable), "a", "b", "c", Date(2025, 1, 1), "low");
    var r2 := Add(r1.value, "d", "e", "f", Date(2025, 1, 2), "high");
    var s2 := r2.value;
    assert |s2.tasks| == 2 && s2.tasks[0].taskId == 1 && s2.tasks[1].taskId == 2;
    assert FirstIndex(s2.tasks, 2) == Some(1);
    var rest := s2.tasks[..1] + s2.tasks[2..];
    assert rest == [s2.tasks[0]];
    assert AllDated(rest);
    var s3 := Delete(s2, 2).value.store;
    assert s3.tasks == rest;
    assert LoadAll(s3.file) == [s2.tasks[0]];
    assert NextId([s2.tasks[0]]) == 2;
  }

  /** The text form of dates: four-digit years with leading zeros. */
  lemma FormatExamples()
    ensures Format(Date(2023, 12, 1)) == "2023-12-01"
    ensures Format(Date(987, 6, 5)) == "0987-06-05"
  {
    assert Pad2(20) == "20" && Pad2(23) == "23" && Pad2(12) == "12" && Pad2(1) == "01";
    assert Pad4(2023) == "2023";
    assert Pad2(9) == "09" && Pad2(87) == "87" && Pad2(6) == "06" && Pad2(5) == "05";
    assert Pad4(987) == "0987";
  }

  /** A leap day is accepted in a leap year. */
  lemma ParseLeapDay()
    ensures Parse("2024-02-29") == Some(Date(2024, 2, 29))
  {
    assert Format(Date(2024, 2, 29)) == "2024-02-29";
    ParseFormat(Date(2024, 2, 29));
  }

  /** A leap day in a common year, a one-digit day and year 0 are rejected. */
  lemma ParseRejects()
    ensures Parse("2023-02-29") == None
    ensures Parse("2023-12-1") == None
    ensures Parse("0000-01-01") == None
  {
    var s := "2023-02-29";
    assert s[..4] == "2023" && s[5..7] == "02" && s[8..] == "29";
    assert Value4("2023") == 2023 by {
      assert "2023"[..2] == "20" && "2023"[2..] == "23";
    }
    assert !Valid(Date(2023, 2, 29));
    var z := "0000-01-01";
    assert z[..4] == "0000";
    assert Value4("0000") == 0 by {
      assert "0000"[..2] == "00" && "0000"[2..] == "00";
    }
  }
}
