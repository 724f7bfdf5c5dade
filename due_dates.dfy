/** Recovering a task's due date from its display text, and which tasks the
    daily check reminds about. The due date is not stored on its own: it is
    embedded in the text as "(Due: MM/DD/YY hh:mm AM)" and found again by
    substring search. */
module DueDates {
  import opened Wrappers
  import opened Strings
  import opened DateCodec

  const Marker: string := "(Due: "

  /** What re-reading a task's text yields. `Unparseable` is the case in
      which `strptime` raises `ValueError` inside the check. */
  datatype Extraction = NoMarker | Unparseable(text: string) | Due(date: DateTime)

  /** The display text that a successful dated add builds. */
  function DatedEntry(description: string, due: DateTime): (entry: string)
    requires Valid(due)
    ensures |entry| == |description| + |Marker| + 19
    ensures entry[..|description|] == description && entry[|entry| - 1] == ')'
  {
    description + " (Due: " + Format(due) + ")"
  }

  /** `task.split("(Due: ")[1].split(")")[0]` when the marker is present:
      the text after the first marker, cut at the next marker and then at
      the first ")". */
  function DueText(task: string): (r: Option<string>)
    ensures r.None? <==> !Contains(task, Marker)
    ensures r.Some? ==> !Contains(r.value, ")")
  {
    match SplitSecond(task, Marker)
    case None => None
    case Some(field) => Some(SplitFirst(field, ")"))
  }

  function Extract(task: string): (r: Extraction)
    ensures r.NoMarker? <==> !Contains(task, Marker)
    ensures r.Due? ==> Valid(r.date) && 1969 <= r.date.year <= 2068
    ensures r.Unparseable? ==> Parse(r.text).None? && !Contains(r.text, ")")
  {
    match DueText(task)
    case None => NoMarker
    case Some(text) =>
      match Parse(text)
      case None => Unparseable(text)
      case Some(d) => Due(d)
  }

  /** The check reminds about `task` on `today`: its embedded due date falls
      on that calendar day, whatever the time of day. */
  predicate DueOn(task: string, today: CalendarDay): (r: bool)
    ensures r ==> Contains(task, Marker)
    ensures r ==> && 1969 <= today.year <= 2068 && 1 <= today.month <= 12
                  && 1 <= today.day <= DaysInMonth(today.year, today.month)
  {
    Extract(task).Due? && DateOf(Extract(task).date) == today
  }

  /** No task holds a marker whose text fails to parse, so a check over
      them runs to the end. */
  predicate AllParseable(tasks: seq<string>) {
    forall i | 0 <= i < |tasks| :: !Extract(tasks[i]).Unparseable?
  }

  /** Where a check over `tasks` stops: the position of the first task whose
      marker text does not parse, or `|tasks|` when there is none. */
  function FirstUnparseable(tasks: seq<string>): (k: nat)
    ensures k <= |tasks|
    ensures forall j | 0 <= j < k :: !Extract(tasks[j]).Unparseable?
    ensures k < |tasks| ==> Extract(tasks[k]).Unparseable?
  {
    if tasks == [] then 0
    else if Extract(tasks[0]).Unparseable? then 0
    else
      var k := FirstUnparseable(tasks[1..]);
      assert forall j | 1 <= j < k + 1 :: tasks[j] == tasks[1..][j - 1];
      k + 1
  }

  /** A check that got past `tasks[i]` without raising has seen no
      unparseable marker up to and including it. */
  lemma ParseableStep(tasks: seq<string>, i: nat)
    requires i < |tasks| && !Extract(tasks[i]).Unparseable?
    requires forall j | 0 <= j < i :: !Extract(tasks[j]).Unparseable?
    ensures forall j | 0 <= j < i + 1 :: !Extract(tasks[j]).Unparseable?
  {
  }

  /** The stopping point is the first unparseable task and no other. */
  lemma FirstUnparseableAt(tasks: seq<string>, i: nat)
    requires i <= |tasks|
    requires forall j | 0 <= j < i :: !Extract(tasks[j]).Unparseable?
    requires i < |tasks| ==> Extract(tasks[i]).Unparseable?
    ensures FirstUnparseable(tasks) == i
  {
  }

  /** A task whose marker text does not parse stops the check at or
      before it: no task after it is ever reminded about, and the check is
      not rescheduled. */
  lemma UnparseableStopsCheck(tasks: seq<string>, i: nat)
    requires i < |tasks| && Extract(tasks[i]).Unparseable?
    ensures !AllParseable(tasks) && FirstUnparseable(tasks) <= i
  {
  }

  /** The reminders a check over `tasks` emits if no task's marker is
      unparseable: the tasks due today, in list order. */
  function DueToday(tasks: seq<string>, today: CalendarDay): (reminders: seq<string>)
    ensures |reminders| <= |tasks|
    ensures forall t | t in reminders :: t in tasks && DueOn(t, today)
  {
    if tasks == [] then []
    else (if DueOn(tasks[0], today) then [tasks[0]] else []) + DueToday(tasks[1..], today)
  }

  /** Scanning two lists one after the other emits the two lists' reminders
      one after the other, which is what lets the check's loop extend its
      result one task at a time. */
  lemma {:induction false} DueTodayAppend(a: seq<string>, b: seq<string>, today: CalendarDay)
    ensures DueToday(a + b, today) == DueToday(a, today) + DueToday(b, today)
  {
    if a == [] {
      assert a + b == b;
    } else {
      assert (a + b)[1..] == a[1..] + b;
      DueTodayAppend(a[1..], b, today);
    }
  }

  /** One more task scanned adds its reminder, if it is due, at the end. */
  lemma DueTodayStep(tasks: seq<string>, i: nat, today: CalendarDay)
    requires i < |tasks|
    ensures DueToday(tasks[..i + 1], today) == DueToday(tasks[..i], today) + (if DueOn(tasks[i], today) then [tasks[i]] else [])
  {
    assert tasks[..i + 1] == tasks[..i] + [tasks[i]];
    DueTodayAppend(tasks[..i], [tasks[i]], today);
    assert [tasks[i]][1..] == [];
  }

  /** Exactly one reminder per occurrence of a task due today, and none for
      any other task. */
  lemma {:induction false} DueTodayCount(tasks: seq<string>, today: CalendarDay, t: string)
    ensures multiset(DueToday(tasks, today))[t] == if DueOn(t, today) then multiset(tasks)[t] else 0
  {
    if tasks != [] {
      DueTodayCount(tasks[1..], today, t);
      assert tasks == [tasks[0]] + tasks[1..];
      assert multiset(tasks) == multiset{tasks[0]} + multiset(tasks[1..]);
    }
  }

  /** The converse of `DueToday`'s contract: every task due today is among
      the reminders. */
  lemma {:induction false} DueTodayComplete(tasks: seq<string>, today: CalendarDay, t: string)
    requires t in tasks && DueOn(t, today)
    ensures t in DueToday(tasks, today)
  {
    DueTodayCount(tasks, today, t);
    assert t in multiset(tasks);
  }

  /** Text after a first marker is read up to the next marker or ")". */
  lemma {:induction false} DueTextAfterFirstMarker(head: string, after: string)
    requires !Contains(head, Marker)
    ensures DueText(head + Marker + after) == Some(SplitFirst(SplitFirst(after, Marker), ")"))
  {
    var task := head + Marker + after;
    assert task == head + (Marker + after);
    assert Marker[0] !in Marker[1..];
    assert OccursAt(Marker + after, Marker, 0) by {
      assert (Marker + after)[0..|Marker|] == Marker;
    }
    IndexOfAfterClean(head, Marker + after, Marker);
    assert task[|head| + |Marker|..] == after;
  }

  /** A formatted date followed by ")" is read back up to that ")". */
  lemma {:induction false} DueTextOfFormatted(f: string, tail: string)
    requires '(' !in f && ')' !in f
    ensures SplitFirst(SplitFirst(f + ")" + tail, Marker), ")") == f
  {
    SplitFirstSkip(f + ")", tail, Marker);
    var field := f + ")" + SplitFirst(tail, Marker);
    assert field == f + (")" + SplitFirst(tail, Marker));
    SplitFirstSkip(f, ")" + SplitFirst(tail, Marker), ")");
    IndexOfFirst(")" + SplitFirst(tail, Marker), ")", 0);
  }

  /** A dated entry built from a description in which the marker cannot be
      found (not even straddling the space added after it) gives back its due
      date, whatever follows it: a line terminator added by loading, say. */
  lemma {:induction false} ExtractDatedEntry(description: string, due: DateTime, tail: string)
    requires !Contains(description + " ", Marker)
    requires Valid(due) && 1969 <= due.year <= 2068
    ensures Extract(DatedEntry(description, due) + tail) == Due(due)
  {
    var f := Format(due);
    assert DatedEntry(description, due) + tail == (description + " ") + Marker + (f + ")" + tail);
    DueTextAfterFirstMarker(description + " ", f + ")" + tail);
    DueTextOfFormatted(f, tail);
    ParseFormat(due);
  }

  /** A dated entry is reminded about on its due day and on no other day. */
  lemma DatedEntryDueOn(description: string, due: DateTime, tail: string, today: CalendarDay)
    requires !Contains(description + " ", Marker)
    requires Valid(due) && 1969 <= due.year <= 2068
    ensures DueOn(DatedEntry(description, due) + tail, today) <==> DateOf(due) == today
  {
    ExtractDatedEntry(description, due, tail);
  }

  /** A description that itself holds a well-formed "(Due: ...)" span
      overrides the due date entered with it: extraction finds the
      description's date first. */
  lemma {:induction false} MarkerInDescriptionWins(prefix: string, text: string, suffix: string, due: DateTime)
    requires Valid(due) && '(' !in prefix && Parse(text).Some?
    ensures Extract(DatedEntry(prefix + Marker + text + ")" + suffix, due)) == Due(Parse(text).value)
  {
    var tail := suffix + " (Due: " + Format(due) + ")";
    assert DatedEntry(prefix + Marker + text + ")" + suffix, due) == prefix + Marker + (text + ")" + tail);
    IndexOfSkip(prefix, "", Marker);
    assert prefix + "" == prefix;
    DueTextAfterFirstMarker(prefix, text + ")" + tail);
    FormatParse(text);
    DueTextOfFormatted(text, tail);
  }

  /** A description ending in "(Due:" turns the space the entry adds after it
      into a first marker one character early: what follows it up to the
      real marker is empty, which does not parse, so the check raises on
      this entry. */
  lemma {:induction false} DescriptionEndingInMarkerBreaksExtraction(prefix: string, due: DateTime)
    requires Valid(due) && '(' !in prefix
    ensures Extract(DatedEntry(prefix + "(Due:", due)) == Unparseable("")
  {
    var rest := Marker + Format(due) + ")";
    assert DatedEntry(prefix + "(Due:", due) == prefix + Marker + rest;
    IndexOfSkip(prefix, "", Marker);
    assert prefix + "" == prefix;
    DueTextAfterFirstMarker(prefix, rest);
    assert OccursAt(rest, Marker, 0) by {
      assert rest[0..|Marker|] == Marker;
    }
    IndexOfFirst(rest, Marker, 0);
  }
}
