# To-do list core in Dafny

A model of the task-list logic of a single-window tkinter to-do application
(`main.py`). The application keeps an ordered list of display strings
(`self.tasks`), appends to it when a task is added (optionally with a due date
in the fixed text format `MM/DD/YY hh:mm AM/PM`), removes the selected entry,
rewrites `tasks.txt` after every change, reads it back on start-up, and once a
day pops up a reminder for every task whose embedded due date is today.

Modules, one per part of that logic:

- `Wrappers`: the `Option` type.
- `Strings`: the parts of Python's `str` the program uses: `in` (`Contains`,
  with `IndexOf` giving the first occurrence that `split` cuts at), and
  `split(sep)[0]` / `split(sep)[1]` (`SplitFirst`, `SplitSecond`).
- `DateCodec`: `strptime` / `strftime` with the format `"%m/%d/%y %I:%M %p"`.
  `Parse` and `Format` work on a minute-precision `DateTime` record. The module
  also holds the two-digit year pivot (00-68 becomes 2000-2068, 69-99 becomes
  1969-1999), the 12-hour clock, the day-of-month check with leap years, and
  Python's `due < now` comparison against a clock reading that has seconds and
  microseconds.
- `DueDates`: recovering a due date from display text. The text after the
  first `"(Due: "` is cut at the next marker and then at the first `")"`, and
  then re-parsed. The module also specifies the reminders a daily check emits
  and where an unparseable marker stops the check.
- `Persistence`: the file format. `Serialize` writes `t + "\n"` per task, and
  `SplitLines` is `readlines()`, which keeps each `"\n"`.
- `TodoApp`: class `TodoList`, whose fields are `tasks` and `file` (the
  contents of `tasks.txt`). Its methods are `AddTask`, `RemoveTask`,
  `SaveTasks`, `Close` and `CheckDueDates`. The entry fields' text, the
  listbox selection, the current time and today's date are parameters.

Behaviour of the code that the proofs pin down:

- A due date exactly equal to "now" is accepted, because the comparison is a
  strict `<`. This is `AddAcceptsDueNow`.
- Loading what was saved does not give back the same tasks. Each task comes
  back with its `"\n"` attached, and the next save writes that `"\n"` plus
  another. So every save after a load adds one blank entry per task, and the
  file changes even though the list did not. See `LoadAfterSave`,
  `SaveAfterLoadAddsBlankLines` and `ResaveUnchangedIffEmpty`. One might expect
  saving and loading to round-trip; the code does not, and the model follows
  the code.
- A description that holds a well-formed `"(Due: ...)"` span overrides the
  entered due date. See `MarkerInDescriptionWins`.
- A description ending in `"(Due:"` makes the entry unparseable when a due
  date is given with it (without a date the entry holds no full marker). The check
  then raises when it reaches that entry, emits nothing for later tasks and
  never reschedules itself. See `DescriptionEndingInMarkerBreaksExtraction`
  and `UnparseableStopsCheck`.
- Removing at an index the list does not have raises `IndexError` in `pop`.
  The model has an explicit `IndexOutOfRange` outcome for it. The listbox
  mirrors `tasks`, so the GUI never produces this case.

## Model

| member | source | states |
|---|---|---|
| `Strings.IndexOf` | main.py:97 | the result is the first index where the pattern occurs, and `None` exactly when it occurs nowhere (`pat in s`) |
| `Strings.SplitFirst` | main.py:98 | `split(sep)[0]` is a prefix of the text that contains no separator and is the whole text or ends exactly at the first occurrence found by `IndexOf` |
| `Strings.SplitSecond` | main.py:98 | `split(sep)[1]` exists exactly when the separator occurs; it is a prefix of the text after the first occurrence that is all of it or ends at the next occurrence, and contains no separator |
| `Strings.IndexOfSkip` | main.py:97-98 | searching `p + t`, when `p` lacks the pattern's first character, finds what searching `t` finds, shifted by `|p|` |
| `Strings.IndexOfAfterClean` | main.py:97-98 | a pattern with no repeated first character, absent from `p`, is first found where `t` begins when `t` starts with it |
| `DateCodec.DaysInMonth` | main.py:63 | February has 29 days exactly in leap years and 28 otherwise, April, June, September and November 30, every other month 31 |
| `DateCodec.PivotYear` | main.py:63 | a `%y` year lies in 1969..2068 and keeps its last two digits |
| `DateCodec.To24` | main.py:63 | `%I %p` gives an hour 0..23, before noon exactly for AM, and equal to the 12-hour hour or 12 away from it (so 12 AM is 0, 12 PM is 12, any other PM hour adds 12) |
| `DateCodec.To12` | main.py:67 | the printed 12-hour hour is 1..12, equal to the hour or 12 away from it (0 and 12 both print as 12), and converts back, with the meridiem, to the same 24-hour hour |
| `DateCodec.IsPast` | main.py:64 | `due < now` holds exactly when the due time's field tuple, with zero seconds and microseconds, is lexicographically less than that of the clock reading, as Python orders `datetime`s |
| `DateCodec.Parse` | main.py:63 | every accepted text is 17 characters long and yields a valid date and time with a year in 1969..2068 |
| `DateCodec.Format` | main.py:67 | the printed text is 17 characters long and has no parenthesis or newline |
| `DateCodec.ParseFormat` | main.py:63-67 | parsing a formatted time gives the time back, for years 1969..2068 |
| `DateCodec.FormatParse` | main.py:63-67 | every text `Parse` accepts is re-printed character for character by `Format` |
| `DueDates.DatedEntry` | main.py:67 | a dated entry starts with the description, ends in `")"`, and is as long as the description, the marker and the 17-character date together with their space and parenthesis |
| `DueDates.Extract` | main.py:97-99 | a task has no due date exactly when it lacks the marker; an extracted due date is valid with a year in 1969..2068; a failed extraction carries text that `strptime` rejects |
| `DueDates.DueText` | main.py:97-98 | the enclosed text exists exactly when the task contains `"(Due: "`, and it contains no `")"` |
| `DueDates.ExtractDatedEntry` | main.py:67-99 | an entry built at line 67 from a description in which the marker cannot be found yields its due date back, whatever text follows it |
| `DueDates.DatedEntryDueOn` | main.py:67-100 | such an entry is due on a day exactly when that day is its due date's calendar day, whatever the time of day |
| `DueDates.DueOn` | main.py:97-100 | a task is due on a day only if it holds the marker, and only on a valid calendar day in 1969..2068 (its value is pinned by `DatedEntryDueOn`) |
| `DueDates.MarkerInDescriptionWins` | main.py:67-99 | a well-formed marker inside the description replaces the entered due date |
| `DueDates.DescriptionEndingInMarkerBreaksExtraction` | main.py:67-99 | a description ending in `"(Due:"` produces an entry whose enclosed text is empty and does not parse |
| `DueDates.FirstUnparseable` | main.py:96-99 | the check stops at the first task whose marker text does not parse, or runs to the end |
| `DueDates.UnparseableStopsCheck` | main.py:99-103 | a task with an unparseable marker prevents rescheduling, and no task after it is reminded about |
| `DueDates.DueToday` | main.py:96-101 | every reminder is a task in the list that is due today, and there are no more reminders than tasks |
| `DueDates.DueTodayAppend` | main.py:96-101 | reminders come in list order: scanning two lists one after the other concatenates their reminders |
| `DueDates.DueTodayCount` | main.py:100-101 | exactly one reminder per occurrence of a task due today, none for other tasks |
| `DueDates.DueTodayComplete` | main.py:100-101 | every task due today is reminded about |
| `Persistence.Serialize` | main.py:128-129 | the file holds at least one character, its `"\n"`, per task (its exact contents are stated by `SerializeAppend`) |
| `Persistence.SerializeAppend` | main.py:128-129 | writing one more task appends exactly its line to the file |
| `Persistence.SplitLines` | main.py:121 | `readlines` loses and adds nothing; every piece is a non-empty line with no inner `"\n"`, and every piece but the last ends in `"\n"` |
| `Persistence.Terminated` | main.py:121 | the loaded form of newline-free tasks is each task with `"\n"` appended |
| `Persistence.LoadAfterSave` | main.py:121-129 | loading a saved list of newline-free tasks gives each task back with `"\n"` attached, not the tasks themselves |
| `Persistence.WithBlankLinesAt` | main.py:121-129 | in what a second load sees, task `i` is at position `2i`, followed by a lone `"\n"` |
| `Persistence.SaveAfterLoadAddsBlankLines` | main.py:121-129 | saving loaded tasks and loading again yields a blank `"\n"` entry after every task |
| `Persistence.SaveAfterLoadGrows` | main.py:121-129 | each save after a load writes one more character per task |
| `Persistence.ResaveUnchangedIffEmpty` | main.py:121-129 | loading a saved file and saving it again leaves it unchanged exactly when it holds no tasks |
| `TodoApp.AddOutcomeFor` | main.py:56-80 | an empty description, an unparseable date and a past date are each refused with their own warning, in that order; otherwise the entry is the description, or the description plus `" (Due: " + date + ")"` with the date text kept verbatim |
| `TodoApp.WithoutIndex` | main.py:86 | `pop(i)` keeps the order of the other entries, shortens the list by one and removes exactly one copy of the entry at `i` |
| `TodoApp.RemoveLastUndoesAdd` | main.py:73-86 | appending an entry and popping the last index restores the list |
| `TodoApp.AddAcceptsDueNow` | main.py:64 | a due date equal to the current minute at zero seconds is accepted |
| `TodoApp.AddRefusesStartedMinute` | main.py:63-66 | once the seconds of the due minute have started, the add is refused as past |
| `TodoApp.AddedTaskDueOnItsDay` | main.py:56-100 | an accepted dated task whose description hides no marker is reminded about on its due day and on no other, also after a reload |
| `TodoApp.PayRentScenario` | main.py:63-73 | adding "Pay rent" due "01/01/30 09:00 AM" before that time appends `"Pay rent (Due: 01/01/30 09:00 AM)"` |
| `TodoApp.PastRentScenario` | main.py:63-66 | adding "Pay rent" due "01/01/20 09:00 AM" after that time is refused as past |
| `TodoApp.TodoList.constructor` | main.py:12-15 | start-up loads `tasks` as the file's lines and leaves the file as it is |
| `TodoApp.TodoList.SaveTasks` | main.py:126-129 | the file is overwritten with the serialised list, and the list is unchanged |
| `TodoApp.TodoList.AddTask` | main.py:56-80 | the outcome is `AddOutcomeFor`; on success the entry is appended at the end and the file rewritten; on any warning neither changes |
| `TodoApp.TodoList.RemoveTask` | main.py:82-92 | with no selection nothing changes; with a valid index that entry is returned, removed, and the file rewritten |
| `TodoApp.TodoList.Close` | main.py:135-138 | closing saves the unchanged list |
| `TodoApp.TodoList.CheckDueDates` | main.py:94-103 | the reminders are the due-today tasks, in order, up to the first unparseable marker; the check reschedules exactly when no marker is unparseable |

## Left out

- The tkinter widgets, `messagebox` dialogs, listbox inserts and deletes, and the `strip()` applied only for display (main.py:18-45, 74-76, 87-88, 105-106, 131-133). A reminder dialog is modelled as an element of the returned reminder list; a warning is modelled as an outcome value.
- `center_window` (main.py:108-116): screen geometry only.
- `master.after` scheduling and the 1 s / 24 h timer (main.py:48, 103). The check returns `rescheduled`, which is true exactly when it reached line 103.
- `datetime.now()` (main.py:64, 95). The current time is a parameter: `Instant` for the add check and `CalendarDay` for the daily check.
- Real file I/O and `FileNotFoundError` (main.py:119-124, 127). The file is its contents as a string, and an absent file is the empty string. A failing write is not modelled.
- Text-mode newline translation. Reading does not turn `"\r"` or `"\r\n"` into `"\n"`, and writing does not use platform line endings. `SplitLines` splits on `"\n"` only.
- DateCodec.Parse: accepts only the strict canonical form: zero-padded two-digit fields, upper-case `AM`/`PM`, single spaces. Python's `strptime` also accepts single-digit fields, non-ASCII decimal digits, lower-case or mixed-case meridiems, runs of whitespace (tabs and newlines included) where the format has a space, and locale-specific `%p` strings. That leniency belongs to the library, not to `main.py`. Because of this restriction, `AddOutcomeFor` reports such inputs as `BadDateFormat`, where the program would accept them and re-print them zero-padded.
- DateCodec.Format: is stated only for valid `datetime` values (years 1-9999), the only values Python can hold.
- Time zones, and seconds in due dates: the format cannot express either, and parsed due dates always have zero seconds.
