/** `rotate`: collecting the operands, rewrapping every file the retired identity opens, and the
    tally. */
module Rotate {
  import opened Prelude
  import opened Lists
  import opened Pool

  // ----- operands

  /** What a path names: a file, a directory with what its walk meets, or nothing readable. */
  datatype Operand = PlainFile | Directory(entries: seq<Entry>, broken: bool) | Unreadable

  datatype Entry = Entry(path: string, isDir: bool)

  datatype CollectError = FromStdin | CannotStat(path: string) | CannotWalk(path: string) | NoFiles

  predicate HasSuffix(s: string, suffix: string) {
    |suffix| <= |s| && s[|s| - |suffix|..] == suffix
  }

  const EXT := ".sindook"

  predicate Wanted(e: Entry) {
    !e.isDir && HasSuffix(e.path, EXT)
  }

  function WantedPaths(entries: seq<Entry>): seq<string> {
    if entries == [] then []
    else WantedPaths(entries[..|entries| - 1]) + (if Wanted(entries[|entries| - 1]) then [entries[|entries| - 1].path] else [])
  }

  lemma {:induction false} WantedPathsAre(entries: seq<Entry>, p: string)
    ensures p in WantedPaths(entries) <==> exists e :: e in entries && Wanted(e) && e.path == p
  {
    if entries != [] {
      var front, last := entries[..|entries| - 1], entries[|entries| - 1];
      assert entries == front + [last];
      WantedPathsAre(front, p);
    }
  }

  /** The paths an operand stands for. */
  function Expansion(stat: string -> Operand, operand: string): seq<string> {
    match stat(operand)
    case PlainFile => [operand]
    case Directory(entries, _) => WantedPaths(entries)
    case Unreadable => []
  }

  function Refusal(stat: string -> Operand, operand: string): Option<CollectError> {
    if operand == "-" then Some(FromStdin)
    else match stat(operand)
      case PlainFile => None
      case Directory(_, broken) => if broken then Some(CannotWalk(operand)) else None
      case Unreadable => Some(CannotStat(operand))
  }

  function Expanded(stat: string -> Operand, operands: seq<string>): seq<string> {
    if operands == [] then []
    else Expanded(stat, operands[..|operands| - 1]) + Expansion(stat, operands[|operands| - 1])
  }

  lemma {:induction false} ExpandedAre(stat: string -> Operand, operands: seq<string>, p: string)
    ensures p in Expanded(stat, operands) <==> exists o :: o in operands && p in Expansion(stat, o)
  {
    hide Expansion;
    if operands != [] {
      var front, last := operands[..|operands| - 1], operands[|operands| - 1];
      assert operands == front + [last];
      ExpandedAre(stat, front, p);
    }
  }

  /** The list and its `seen` map, holding exactly the paths of `met`. */
  ghost predicate Holds(seen: set<string>, files: seq<string>, met: seq<string>) {
    NoDup(files) && forall x :: (x in seen <==> x in met) && (x in files <==> x in met)
  }

  /** The paths collected are the operands that are files and, in operands that are directories, the
      files whose names end in ".sindook". */
  lemma {:induction false} CollectedAre(stat: string -> Operand, operands: seq<string>, p: string)
    ensures p in Expanded(stat, operands) <==>
              exists o :: o in operands && match stat(o)
                case PlainFile => p == o
                case Directory(entries, _) => Entry(p, false) in entries && |p| >= 8 && p[|p| - 8..] == ".sindook"
                case Unreadable => false
  {
    ExpandedAre(stat, operands, p);
    forall o | o in operands && stat(o).Directory?
      ensures p in WantedPaths(stat(o).entries) <==> Entry(p, false) in stat(o).entries && |p| >= 8 && p[|p| - 8..] == ".sindook"
    {
      WantedPathsAre(stat(o).entries, p);
      if e :| e in stat(o).entries && Wanted(e) && e.path == p {
        assert e == Entry(p, false);
      }
      if Entry(p, false) in stat(o).entries && HasSuffix(p, EXT) {
        assert Wanted(Entry(p, false));
      }
    }
  }

  /** No operand is refused but standard input, what cannot be read, and a directory whose walk breaks. */
  lemma RefusedWhen(stat: string -> Operand, o: string)
    ensures Refusal(stat, o).None? <==> o != "-" && (stat(o) == PlainFile || (stat(o).Directory? && !stat(o).broken))
  {
  }

  /** Adds a path unless it has been seen. */
  method Add(seen: set<string>, files: seq<string>, p: string, ghost met: seq<string>)
      returns (seenNow: set<string>, filesNow: seq<string>)
    requires Holds(seen, files, met)
    ensures Holds(seenNow, filesNow, met + [p])
  {
    if p in seen {
      return seen, files;
    }
    return seen + {p}, files + [p];
  }

  /** The wanted paths of a directory's walk. */
  method AddWalk(seen: set<string>, files: seq<string>, entries: seq<Entry>, ghost met: seq<string>)
      returns (seenNow: set<string>, filesNow: seq<string>)
    requires Holds(seen, files, met)
    ensures Holds(seenNow, filesNow, met + WantedPaths(entries))
  {
    hide Holds, Wanted;
    seenNow, filesNow := seen, files;
    assert met + WantedPaths(entries[..0]) == met;
    for i := 0 to |entries|
      invariant Holds(seenNow, filesNow, met + WantedPaths(entries[..i]))
    {
      assert entries[..i + 1][..i] == entries[..i];
      ghost var metNow := met + WantedPaths(entries[..i]);
      if Wanted(entries[i]) {
        seenNow, filesNow := Add(seenNow, filesNow, entries[i].path, metNow);
        assert metNow + [entries[i].path] == met + WantedPaths(entries[..i + 1]);
      } else {
        assert metNow == met + WantedPaths(entries[..i + 1]);
      }
    }
    assert entries[..|entries|] == entries;
  }

  /** Every path the operands stand for once, in increasing order; the first bad operand refuses all. */
  method CollectRotateInputs(operands: seq<string>, stat: string -> Operand) returns (r: Result<seq<string>, CollectError>)
    ensures r.Ok? <==> forall k :: 0 <= k < |operands| ==> Refusal(stat, operands[k]).None?
    ensures r.Err? ==> exists k :: 0 <= k < |operands| && Refusal(stat, operands[k]) == Some(r.error)
                         && forall j :: 0 <= j < k ==> Refusal(stat, operands[j]).None?
    ensures r.Ok? ==> Increasing(r.value)
    ensures r.Ok? ==> forall p :: p in r.value <==> p in Expanded(stat, operands)
  {
    hide Holds, WantedPaths, Increasing;
    var seen: set<string>, files: seq<string> := {}, [];
    HoldsNothing();
    for k := 0 to |operands|
      invariant Holds(seen, files, Expanded(stat, operands[..k]))
      invariant forall j :: 0 <= j < k ==> Refusal(stat, operands[j]).None?
    {
      var operand := operands[k];
      assert operands[..k + 1][..k] == operands[..k];
      if operand == "-" {
        return Err(FromStdin);
      }
      match stat(operand)
      case Unreadable => return Err(CannotStat(operand));
      case PlainFile => seen, files := Add(seen, files, operand, Expanded(stat, operands[..k]));
      case Directory(entries, broken) =>
        seen, files := AddWalk(seen, files, entries, Expanded(stat, operands[..k]));
        if broken {
          return Err(CannotWalk(operand));
        }
    }
    assert operands[..|operands|] == operands;
    HoldsThose(seen, files, Expanded(stat, operands));
    SortIncreasing(files);
    return Ok(Sort(files));
  }

  lemma HoldsNothing()
    ensures Holds({}, [], [])
  {
  }

  lemma HoldsThose(seen: set<string>, files: seq<string>, met: seq<string>)
    requires Holds(seen, files, met)
    ensures forall p :: p in files <==> p in met
  {
  }

  // ----- one file

  datatype Status = Rotated | Skipped | Failed

  datatype Row = Row(file: string, status: Status, error: Option<Error>)

  /** Failures that mean the file is not this identity's. */
  predicate IsSkippable(e: Error) {
    e == WrongKey || e == HeaderTampered || e == PayloadCorrupted || e == NotSindook
  }

  /** Opening a file with the retired identity, and rewrapping it to the new recipients with the
      randomness drawn for it. */
  datatype Rotation = Rotation(attempt: Bytes -> Option<Error>, rewrap: (string, Bytes) -> Result<Bytes, Error>)

  function AttemptOpen(r: Rotation, content: Option<Bytes>): Option<Error> {
    if content.None? then Some(SourceError) else r.attempt(content.value)
  }

  function RewrapInPlace(r: Rotation, path: string, content: Option<Bytes>): Result<Bytes, Error> {
    if content.None? then Err(SourceError) else r.rewrap(path, content.value)
  }

  /** `rotateOne`, up to and after the point where the file is found to open. */
  function RotateOne(r: Rotation): Job<Row> {
    Job(
      (path, content) =>
        var err := AttemptOpen(r, content);
        if err.None? then None
        else Some(Row(path, if IsSkippable(err.value) then Skipped else Failed, err)),
      (path, content) =>
        match RewrapInPlace(r, path, content)
        case Ok(file) => Change(Some(file), Row(path, Rotated, None))
        case Err(e) => Change(None, Row(path, Failed, Some(e))))
  }

  /** How opening ends on a file that is not the identity's, is damaged or is no sealed file. */
  const FOREIGN := {Some(WrongKey), Some(HeaderTampered), Some(PayloadCorrupted), Some(NotSindook)}

  /** What happens to one file, stated without the job. */
  ghost predicate RowRight(r: Rotation, path: string, before: Option<Bytes>, after: Option<Bytes>, row: Row) {
    && row.file == path
    && (row.status == Rotated <==> before.Some? && r.attempt(before.value).None? && r.rewrap(path, before.value).Ok?)
    && (row.status == Rotated ==> after == Some(r.rewrap(path, before.value).value))
    && (row.status != Rotated ==> after == before && row.error.Some?)
    && (row.status == Skipped <==> before.Some? && r.attempt(before.value) in FOREIGN)
  }

  lemma RotateOneRight(r: Rotation, path: string, before: Option<Bytes>)
    ensures RowRight(r, path, before, ContentAfter(RotateOne(r), path, before), ResultOn(RotateOne(r), path, before))
  {
  }

  // ----- the command

  function CountOf(rows: seq<Row>, s: Status): nat {
    if rows == [] then 0 else CountOf(rows[..|rows| - 1], s) + if rows[|rows| - 1].status == s then 1 else 0
  }

  function Failures(rows: seq<Row>): seq<string> {
    if rows == [] then []
    else Failures(rows[..|rows| - 1]) + if rows[|rows| - 1].status == Failed then [rows[|rows| - 1].file] else []
  }

  lemma {:induction false} FailuresAre(rows: seq<Row>, name: string)
    ensures name in Failures(rows) <==> exists row :: row in rows && row.status == Failed && row.file == name
  {
    if rows != [] {
      var front, last := rows[..|rows| - 1], rows[|rows| - 1];
      assert rows == front + [last];
      FailuresAre(front, name);
    }
  }

  /** Counts the rows and lists the files whose errors decide the exit code. */
  method Tally(rows: seq<Row>) returns (rotated: nat, skipped: nat, failed: nat, errs: seq<string>)
    ensures rotated == CountOf(rows, Rotated) && skipped == CountOf(rows, Skipped) && failed == CountOf(rows, Failed)
    ensures rotated + skipped + failed == |rows|
    ensures errs == Failures(rows) && |errs| == failed
  {
    rotated, skipped, failed, errs := 0, 0, 0, [];
    for k := 0 to |rows|
      invariant rotated == CountOf(rows[..k], Rotated) && skipped == CountOf(rows[..k], Skipped)
      invariant failed == CountOf(rows[..k], Failed) && rotated + skipped + failed == k
      invariant errs == Failures(rows[..k]) && |errs| == failed
    {
      assert rows[..k + 1][..k] == rows[..k];
      match rows[k].status
      case Rotated => rotated := rotated + 1;
      case Skipped => skipped := skipped + 1;
      case Failed =>
        failed := failed + 1;
        errs := errs + [rows[k].file];
    }
    assert rows[..|rows|] == rows;
  }

  /** From operands to report, whatever the number of jobs and the schedule of the workers. */
  method CmdRotate(operands: seq<string>, stat: string -> Operand, files: Files, r: Rotation, jobs: nat, cpus: nat)
      returns (after: Files, rows: seq<Row>, paths: seq<string>, refused: Option<CollectError>, errs: seq<string>)
    requires cpus >= 1
    ensures refused.None? <==> Expanded(stat, operands) != [] && forall k :: 0 <= k < |operands| ==> Refusal(stat, operands[k]).None?
    ensures refused.Some? ==> after == files && rows == []
    ensures refused.None? ==> Increasing(paths) && forall p :: p in paths <==> p in Expanded(stat, operands)
    ensures |rows| == |paths|
    ensures forall i :: 0 <= i < |rows| ==> RowRight(r, paths[i], At(files, paths[i]), At(after, paths[i]), rows[i])
    ensures forall p :: p !in paths ==> At(after, p) == At(files, p)
    ensures errs == Failures(rows)
  {
    hide RowRight, ContentAfter, ResultOn, At, Expanded, Refusal;
    var collected := CollectRotateInputs(operands, stat);
    if collected.Err? {
      return files, [], [], Some(collected.error), [];
    }
    paths, refused := collected.value, None;
    ghost var all := Expanded(stat, operands);
    if all != [] {
      assert all[0] in all;
    }
    if paths == [] {
      return files, [], [], Some(NoFiles), [];
    }
    assert paths[0] in paths;
    IncreasingNoDup(paths);
    after, rows := RunJobs(RotateOne(r), files, paths, jobs, cpus, false);
    forall i | 0 <= i < |rows|
      ensures RowRight(r, paths[i], At(files, paths[i]), At(after, paths[i]), rows[i])
    {
      RotateOneRight(r, paths[i], At(files, paths[i]));
    }
    var rotated, skipped, failed;
    rotated, skipped, failed, errs := Tally(rows);
  }
}
