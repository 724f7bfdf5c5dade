/** The tasks file: `save_tasks` writes each task followed by "\n";
    `load_tasks` reads it back with `readlines()`, which splits after each
    "\n" and keeps it. The file is modelled as its contents, an absent file
    as the empty string. */
module Persistence {
  import opened Wrappers
  import opened Strings

  /** What `save_tasks` writes: `t + "\n"` for each task, in order. */
  function Serialize(tasks: seq<string>): (file: string)
    ensures |file| >= |tasks|
  {
    if tasks == [] then "" else tasks[0] + "\n" + Serialize(tasks[1..])
  }

  /** Writing one more task appends exactly its line. */
  lemma {:induction false} SerializeAppend(tasks: seq<string>, t: string)
    ensures Serialize(tasks + [t]) == Serialize(tasks) + t + "\n"
  {
    if tasks == [] {
      assert tasks + [t] == [t];
    } else {
      assert (tasks + [t])[1..] == tasks[1..] + [t];
      SerializeAppend(tasks[1..], t);
    }
  }

  /** Plain concatenation of the lines `readlines` returns. */
  function Concat(lines: seq<string>): string {
    if lines == [] then "" else lines[0] + Concat(lines[1..])
  }

  /** A line as `readlines` returns it: non-empty, with no "\n" before its
      last character. */
  predicate IsLine(l: string) {
    l != "" && forall i | 0 <= i < |l| - 1 :: l[i] != '\n'
  }

  predicate EndsInNewline(l: string) {
    l != "" && l[|l| - 1] == '\n'
  }

  /** `file.readlines()`: the contents cut after every "\n"; a last line
      without one is kept as it is. Nothing is lost or added, every piece
      is a line, and every piece but the last ends in "\n". */
  function SplitLines(file: string): (lines: seq<string>)
    ensures Concat(lines) == file
    ensures forall i | 0 <= i < |lines| :: IsLine(lines[i])
    ensures forall i | 0 <= i < |lines| - 1 :: EndsInNewline(lines[i])
    decreases |file|
  {
    if file == "" then []
    else
      match IndexOf(file, "\n")
      case None =>
        ContainsChar(file, '\n');
        [file]
      case Some(k) =>
        var line := file[..k + 1];
        assert file[k..k + 1] == "\n";
        assert forall j | 0 <= j < k :: !OccursAt(file, "\n", j);
        assert forall j | 0 <= j < k :: file[j] != '\n' by {
          forall j | 0 <= j < k ensures file[j] != '\n' {
            assert !OccursAt(file, "\n", j);
            assert file[j..j + 1] == [file[j]];
          }
        }
        var rest := SplitLines(file[k + 1..]);
        assert file == line + file[k + 1..];
        [line] + rest
  }

  /** Tasks that contain no "\n" of their own. */
  predicate NewlineFree(tasks: seq<string>) {
    forall i | 0 <= i < |tasks| :: '\n' !in tasks[i]
  }

  /** Each task with a "\n" appended. */
  function Terminated(tasks: seq<string>): (lines: seq<string>)
    ensures |lines| == |tasks|
    ensures forall i | 0 <= i < |tasks| :: lines[i] == tasks[i] + "\n"
  {
    if tasks == [] then [] else [tasks[0] + "\n"] + Terminated(tasks[1..])
  }

  /** Reading a line that ends at its first "\n" and then the rest. */
  lemma {:induction false} SplitLinesCons(line: string, rest: string)
    requires '\n' !in line
    ensures SplitLines(line + "\n" + rest) == [line + "\n"] + SplitLines(rest)
  {
    var file := line + "\n" + rest;
    assert file == line + ("\n" + rest);
    ContainsChar(line, '\n');
    assert OccursAt("\n" + rest, "\n", 0) by {
      assert ("\n" + rest)[0..1] == "\n";
    }
    IndexOfAfterClean(line, "\n" + rest, "\n");
    assert file[..|line| + 1] == line + "\n";
    assert file[|line| + 1..] == rest;
  }

  /** Loading what was saved does not give back the tasks: each comes back
      with its "\n" still attached. */
  lemma {:induction false} LoadAfterSave(tasks: seq<string>)
    requires NewlineFree(tasks)
    ensures SplitLines(Serialize(tasks)) == Terminated(tasks)
  {
    if tasks != [] {
      SplitLinesCons(tasks[0], Serialize(tasks[1..]));
      LoadAfterSave(tasks[1..]);
    }
  }

  /** Each loaded task followed by an empty one: what a second load sees. */
  function WithBlankLines(tasks: seq<string>): (lines: seq<string>)
    ensures |lines| == 2 * |tasks|
  {
    if tasks == [] then [] else [tasks[0] + "\n", "\n"] + WithBlankLines(tasks[1..])
  }

  /** Task `i` sits at position `2 * i`, followed by a lone "\n". */
  lemma {:induction false} WithBlankLinesAt(tasks: seq<string>, i: nat)
    requires i < |tasks|
    ensures WithBlankLines(tasks)[2 * i] == tasks[i] + "\n"
    ensures WithBlankLines(tasks)[2 * i + 1] == "\n"
  {
    if i > 0 {
      WithBlankLinesAt(tasks[1..], i - 1);
    }
  }

  /** Saving tasks that were loaded adds a "\n" to each, so the next load
      finds an extra "\n" entry after every task. */
  lemma {:induction false} SaveAfterLoadAddsBlankLines(tasks: seq<string>)
    requires NewlineFree(tasks)
    ensures SplitLines(Serialize(Terminated(tasks))) == WithBlankLines(tasks)
  {
    if tasks != [] {
      var rest := Serialize(Terminated(tasks[1..]));
      SerializeTerminatedCons(tasks);
      SplitLinesCons(tasks[0], "\n" + rest);
      SplitLinesBlank(rest);
      SaveAfterLoadAddsBlankLines(tasks[1..]);
    }
  }

  lemma SerializeTerminatedCons(tasks: seq<string>)
    requires tasks != []
    ensures Serialize(Terminated(tasks)) == tasks[0] + "\n" + ("\n" + Serialize(Terminated(tasks[1..])))
  {
    var lines := Terminated(tasks);
    assert lines[1..] == Terminated(tasks[1..]);
    assert lines[0] == tasks[0] + "\n";
  }

  /** A lone "\n" reads back as one line. */
  lemma SplitLinesBlank(rest: string)
    ensures SplitLines("\n" + rest) == ["\n"] + SplitLines(rest)
  {
    var file := "\n" + rest;
    assert OccursAt(file, "\n", 0) by {
      assert file[0..1] == "\n";
    }
    IndexOfFirst(file, "\n", 0);
    assert file[..1] == "\n" && file[1..] == rest;
  }

  /** Every save after a load writes one more character per task. */
  lemma {:induction false} SaveAfterLoadGrows(tasks: seq<string>)
    ensures |Serialize(Terminated(tasks))| == |Serialize(tasks)| + |tasks|
  {
    if tasks != [] {
      assert Terminated(tasks)[1..] == Terminated(tasks[1..]);
      SaveAfterLoadGrows(tasks[1..]);
    }
  }

  /** So a load followed by a save rewrites a saved file unchanged only when
      the file is empty. */
  lemma ResaveUnchangedIffEmpty(tasks: seq<string>)
    requires NewlineFree(tasks)
    ensures Serialize(SplitLines(Serialize(tasks))) == Serialize(tasks) <==> tasks == []
  {
    LoadAfterSave(tasks);
    SaveAfterLoadGrows(tasks);
  }
}
