/** The to-do list itself: `TodoListApp`'s `tasks` list and the tasks file it
    keeps in step with it. The widgets are replaced by parameters: the two
    entry fields' text, the listbox selection, and the clock. */
module TodoApp {
  import opened Wrappers
  import opened Strings
  import opened DateCodec
  import opened DueDates
  import opened Persistence

  /** How an "Add Task" press ends: the entry appended, or the warning shown. */
  datatype AddOutcome = Added(entry: string) | EmptyTask | BadDateFormat | DueInPast

  /** How a "Remove Task" press ends. `IndexOutOfRange` is where `pop`
      raises `IndexError`; the listbox mirrors `tasks`, so a selection made
      through it never gets there. */
  datatype RemoveOutcome = Removed(task: string) | NoSelection | IndexOutOfRange

  /** What an add with these inputs does, as a value: a description is
      required; a non-empty date must parse and must not be before `now`;
      the entry carries the date re-printed in the fixed format. */
  function AddOutcomeFor(task: string, date: string, now: Instant): (r: AddOutcome)
    ensures r == EmptyTask <==> task == ""
    ensures r == BadDateFormat <==> task != "" && date != "" && Parse(date).None?
    ensures r == DueInPast <==> task != "" && Parse(date).Some? && IsPast(Parse(date).value, now)
    ensures r.Added? <==> task != "" && (date == "" || (Parse(date).Some? && !IsPast(Parse(date).value, now)))
    ensures r.Added? && date == "" ==> r.entry == task
    ensures r.Added? && date != "" ==> r.entry == task + " (Due: " + date + ")"
  {
    if task == "" then EmptyTask
    else if date == "" then Added(task)
    else
      match Parse(date)
      case None => BadDateFormat
      case Some(due) =>
        if IsPast(due, now) then DueInPast
        else
          FormatParse(date);
          Added(DatedEntry(task, due))
  }

  /** The list with the element at `i` taken out (`list.pop(i)`). */
  function WithoutIndex(tasks: seq<string>, i: nat): (r: seq<string>)
    requires i < |tasks|
    ensures |r| == |tasks| - 1
    ensures forall j | 0 <= j < i :: r[j] == tasks[j]
    ensures forall j | i <= j < |r| :: r[j] == tasks[j + 1]
    ensures multiset(r) + multiset{tasks[i]} == multiset(tasks)
  {
    assert tasks == tasks[..i] + [tasks[i]] + tasks[i + 1..];
    tasks[..i] + tasks[i + 1..]
  }

  /** Adding an entry and then removing the last one restores the list. */
  lemma RemoveLastUndoesAdd(tasks: seq<string>, entry: string)
    ensures WithoutIndex(tasks + [entry], |tasks|) == tasks
  {
    assert (tasks + [entry])[..|tasks|] == tasks;
  }

  /** Adding at a due time equal to the current minute, at its very start,
      succeeds: the check is "strictly before now". */
  lemma AddAcceptsDueNow(task: string, date: string)
    requires task != "" && Parse(date).Some?
    ensures AddOutcomeFor(task, date, Instant(Parse(date).value, 0, 0)) == Added(task + " (Due: " + date + ")")
  {
  }

  /** Once the seconds of the due minute have started, that minute is
      already past: the same add is refused. */
  lemma AddRefusesStartedMinute(task: string, date: string, second: nat, microsecond: nat)
    requires task != "" && Parse(date).Some?
    requires second > 0 || microsecond > 0
    ensures AddOutcomeFor(task, date, Instant(Parse(date).value, second, microsecond)) == DueInPast
  {
  }

  /** A dated task that was accepted is reminded about on its due day, and
      on no other, as long as its description cannot be mistaken for the
      marker. */
  lemma AddedTaskDueOnItsDay(task: string, date: string, now: Instant, tail: string, today: CalendarDay)
    requires date != "" && AddOutcomeFor(task, date, now).Added?
    requires !Contains(task + " ", Marker)
    ensures DueOn(AddOutcomeFor(task, date, now).entry + tail, today) <==> DateOf(Parse(date).value) == today
  {
    var due := Parse(date).value;
    FormatParse(date);
    assert AddOutcomeFor(task, date, now).entry == DatedEntry(task, due);
    DatedEntryDueOn(task, due, tail, today);
  }

  /** Adding "Pay rent" due 01/01/30 09:00 AM at any time before then
      appends exactly that display text. */
  lemma PayRentScenario(now: Instant)
    requires !IsPast(DateTime(2030, 1, 1, 9, 0), now)
    ensures AddOutcomeFor("Pay rent", "01/01/30 09:00 AM", now) == Added("Pay rent (Due: 01/01/30 09:00 AM)")
  {
    var due := DateTime(2030, 1, 1, 9, 0);
    ParseFormat(due);
    assert Format(due) == "01/01/30 09:00 AM";
    assert !IsPast(Parse("01/01/30 09:00 AM").value, now);
    assert "Pay rent" + " (Due: " + "01/01/30 09:00 AM" + ")" == "Pay rent (Due: 01/01/30 09:00 AM)";
  }

  /** The same add with a due date already gone is refused. */
  lemma PastRentScenario(now: Instant)
    requires Before(DateTime(2020, 1, 1, 9, 0), now.at)
    ensures AddOutcomeFor("Pay rent", "01/01/20 09:00 AM", now) == DueInPast
  {
    var due := DateTime(2020, 1, 1, 9, 0);
    ParseFormat(due);
    assert Format(due) == "01/01/20 09:00 AM";
  }

  class TodoList {
    /** `self.tasks`, in display order. */
    var tasks: seq<string>
    /** The contents of tasks.txt. */
    var file: string

    /** `__init__` as far as the list goes: load the tasks file (an absent
        file reads as empty). */
    constructor (file: string)
      ensures tasks == SplitLines(file) && this.file == file
    {
      this.file := file;
      tasks := SplitLines(file);
    }

    /** `save_tasks`: overwrite the file with one line per task. */
    method SaveTasks()
      modifies this`file
      ensures tasks == old(tasks)
      ensures file == Serialize(tasks)
    {
      var out := "";
      var lines := tasks;
      for i := 0 to |lines|
        invariant out == Serialize(lines[..i])
      {
        assert lines[..i + 1] == lines[..i] + [lines[i]];
        SerializeAppend(lines[..i], lines[i]);
        out := out + lines[i] + "\n";
      }
      assert lines[..|lines|] == lines;
      file := out;
    }

    /** `add_task` with the entry fields' text and the clock as parameters:
        on success the entry is appended and the file rewritten; on any
        warning nothing changes. */
    method AddTask(task: string, date: string, now: Instant) returns (outcome: AddOutcome)
      modifies this
      ensures outcome == AddOutcomeFor(task, date, now)
      ensures outcome.Added? ==> tasks == old(tasks) + [outcome.entry] && file == Serialize(tasks)
      ensures !outcome.Added? ==> tasks == old(tasks) && file == old(file)
    {
      if task != "" {
        var entry: string;
        if date != "" {
          var parsed := Parse(date);
          if parsed.None? {
            return BadDateFormat;
          }
          var due := parsed.value;
          if IsPast(due, now) {
            return DueInPast;
          }
          entry := task + " (Due: " + Format(due) + ")";
        } else {
          entry := task;
        }
        tasks := tasks + [entry];
        SaveTasks();
        outcome := Added(entry);
      } else {
        outcome := EmptyTask;
      }
    }

    /** `remove_task` with the listbox selection as a parameter. */
    method RemoveTask(selection: Option<nat>) returns (outcome: RemoveOutcome)
      modifies this
      ensures selection.None? ==> outcome == NoSelection
      ensures selection.Some? && selection.value >= |old(tasks)| ==> outcome == IndexOutOfRange
      ensures selection.Some? && selection.value < |old(tasks)| ==>
                outcome == Removed(old(tasks)[selection.value])
                && tasks == WithoutIndex(old(tasks), selection.value)
                && file == Serialize(tasks)
      ensures !outcome.Removed? ==> tasks == old(tasks) && file == old(file)
    {
      if selection.None? {
        return NoSelection;
      }
      var i := selection.value;
      if i >= |tasks| {
        return IndexOutOfRange;
      }
      var task := tasks[i];
      tasks := tasks[..i] + tasks[i + 1..];
      SaveTasks();
      outcome := Removed(task);
    }

    /** `on_closing`: a last save before the window goes away. */
    method Close()
      modifies this
      ensures tasks == old(tasks) && file == Serialize(tasks)
    {
      SaveTasks();
    }

    /** `check_due_dates` with today's date as a parameter: one reminder per
        task due today, in list order. A marker whose text does not parse
        makes `strptime` raise, which ends the check before the next one is
        scheduled; the reminders shown up to then stay shown. */
    method CheckDueDates(today: CalendarDay) returns (reminders: seq<string>, rescheduled: bool)
      ensures rescheduled <==> AllParseable(tasks)
      ensures reminders == DueToday(tasks[..FirstUnparseable(tasks)], today)
    {
      reminders := [];
      for i := 0 to |tasks|
        invariant forall j | 0 <= j < i :: !Extract(tasks[j]).Unparseable?
        invariant reminders == DueToday(tasks[..i], today)
      {
        var task := tasks[i];
        ghost var due := DueOn(task, today);
        match Extract(task) {
          case NoMarker =>
          case Unparseable(_) =>
            FirstUnparseableAt(tasks, i);
            return reminders, false;
          case Due(date) =>
            if DateOf(date) == today {
              reminders := reminders + [task];
            }
        }
        assert reminders == DueToday(tasks[..i], today) + (if due then [task] else []);
        DueTodayStep(tasks, i, today);
        ParseableStep(tasks, i);
      }
      assert tasks[..|tasks|] == tasks;
      FirstUnparseableAt(tasks, |tasks|);
      rescheduled := true;
    }
  }
}
