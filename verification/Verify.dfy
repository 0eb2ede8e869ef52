/** `verify`: classifying every operand, on its own or against a baseline, and the report. */
module Verify {
  import opened Prelude
  import opened Lists
  import opened Pool

  datatype Status = Intact | FailedToOpen | Missing | IsNew | Changed

  datatype Entry = Entry(file: string, sha: string)

  datatype Row = Row(file: string, status: Status, sha: string, baselineSha: string)

  /** `failed` marks the outcomes whose error decides the exit code. */
  datatype Outcome = Outcome(row: Row, failed: bool)

  datatype Verdict = Opens(sha: string) | NotExist | Fails

  predicate IsStdin(operand: string) {
    operand == "" || operand == "-"
  }

  function NameOf(operand: string): string {
    if IsStdin(operand) then "stdin" else operand
  }

  /** `baseline.Parse` accepts only entries with a name, each name once. */
  predicate ValidRecord(entries: seq<Entry>) {
    && (forall k :: 0 <= k < |entries| ==> entries[k].file != "")
    && forall j, k :: 0 <= j < k < |entries| ==> entries[j].file != entries[k].file
  }

  /** The index a comparing run builds from the record. */
  method BuildIndex(entries: seq<Entry>) returns (index: map<string, Entry>)
    requires ValidRecord(entries)
    ensures forall f :: f in index <==> exists k :: 0 <= k < |entries| && entries[k].file == f
    ensures forall k :: 0 <= k < |entries| ==> index[entries[k].file] == entries[k]
  {
    index := map[];
    for k := 0 to |entries|
      invariant forall f :: f in index <==> exists j :: 0 <= j < k && entries[j].file == f
      invariant forall j :: 0 <= j < k ==> index[entries[j].file] == entries[j]
    {
      index := index[entries[k].file := entries[k]];
    }
  }

  function BaselineSha(index: Option<map<string, Entry>>, name: string): string {
    if index.Some? && name in index.value then index.value[name].sha else ""
  }

  /** `classifyOne`; index is None when nothing is compared. */
  function Classify(operand: string, verdict: Verdict, wantHash: bool, index: Option<map<string, Entry>>): Outcome {
    var name := NameOf(operand);
    var known := index.Some? && name in index.value;
    var sha := if wantHash && verdict.Opens? then verdict.sha else "";
    if !verdict.Opens? then
      if index.Some? && verdict.NotExist? && known then Outcome(Row(name, Missing, "", BaselineSha(index, name)), false)
      else Outcome(Row(name, FailedToOpen, "", BaselineSha(index, name)), true)
    else if index.None? then Outcome(Row(name, Intact, sha, ""), false)
    else if !known then Outcome(Row(name, IsNew, sha, ""), false)
    else if index.value[name].sha == verdict.sha then Outcome(Row(name, Intact, sha, index.value[name].sha), false)
    else Outcome(Row(name, Changed, sha, index.value[name].sha), false)
  }

  function VerifyJob(check: (string, Option<Bytes>) -> Verdict, wantHash: bool, index: Option<map<string, Entry>>): Job<Outcome> {
    Job(
      (operand, content) => Some(Classify(operand, check(operand, content), wantHash, index)),
      (operand, content) => Change(None, Classify(operand, check(operand, content), wantHash, index)))
  }

  // ----- the report

  function Rows(outcomes: seq<Outcome>): (rows: seq<Row>)
    ensures |rows| == |outcomes|
  {
    seq(|outcomes|, i requires 0 <= i < |outcomes| => outcomes[i].row)
  }

  function MissingRow(e: Entry): Row {
    Row(e.file, Missing, "", e.sha)
  }

  /** The recorded files no outcome names, in the order of the record. */
  function Unchecked(entries: seq<Entry>, checked: set<string>): seq<Row> {
    if entries == [] then []
    else
      var last := entries[|entries| - 1];
      Unchecked(entries[..|entries| - 1], checked) + if last.file in checked then [] else [MissingRow(last)]
  }

  lemma {:induction false} UncheckedAre(entries: seq<Entry>, checked: set<string>, row: Row)
    ensures row in Unchecked(entries, checked)
        <==> exists e :: e in entries && e.file !in checked && row == Row(e.file, Missing, "", e.sha)
  {
    if entries != [] {
      var front, last := entries[..|entries| - 1], entries[|entries| - 1];
      assert entries == front + [last];
      UncheckedAre(front, checked, row);
    }
  }

  function NamesOf(outcomes: seq<Outcome>): set<string> {
    set i | 0 <= i < |outcomes| :: outcomes[i].row.file
  }

  /** The rows printed and the operands whose errors are joined. */
  method Report(outcomes: seq<Outcome>, record: Option<seq<Entry>>) returns (rows: seq<Row>, errs: seq<string>)
    ensures rows == Rows(outcomes) + if record.Some? then Unchecked(record.value, NamesOf(outcomes)) else []
    ensures errs == [] <==> forall i :: 0 <= i < |outcomes| ==> !outcomes[i].failed
    ensures forall name :: name in errs <==> exists i :: 0 <= i < |outcomes| && outcomes[i].failed && outcomes[i].row.file == name
  {
    rows, errs := [], [];
    var checked: set<string> := {};
    for k := 0 to |outcomes|
      invariant rows == Rows(outcomes[..k])
      invariant record.Some? ==> checked == NamesOf(outcomes[..k])
      invariant errs == [] <==> forall i :: 0 <= i < k ==> !outcomes[i].failed
      invariant forall name :: name in errs <==> exists i :: 0 <= i < k && outcomes[i].failed && outcomes[i].row.file == name
    {
      var o := outcomes[k];
      if o.failed {
        errs := errs + [o.row.file];
      }
      if record.Some? {
        checked := checked + {o.row.file};
        NamesStep(outcomes, k);
      }
      rows := rows + [o.row];
    }
    assert outcomes[..|outcomes|] == outcomes;
    if record.Some? {
      var entries := record.value;
      ghost var listed := rows;
      for k := 0 to |entries|
        invariant rows == listed + Unchecked(entries[..k], checked)
      {
        assert entries[..k + 1][..k] == entries[..k];
        if entries[k].file !in checked {
          rows := rows + [MissingRow(entries[k])];
        }
      }
      assert entries[..|entries|] == entries;
    }
  }

  lemma NamesStep(outcomes: seq<Outcome>, k: nat)
    requires k < |outcomes|
    ensures NamesOf(outcomes[..k + 1]) == NamesOf(outcomes[..k]) + {outcomes[k].row.file}
  {
    var longer := outcomes[..k + 1];
    assert longer[..k] == outcomes[..k] && longer[k] == outcomes[k];
    forall name | name in NamesOf(longer)
      ensures name in NamesOf(outcomes[..k]) + {outcomes[k].row.file}
    {
      var i :| 0 <= i < |longer| && longer[i].row.file == name;
      assert i < k ==> outcomes[..k][i] == longer[i];
    }
    forall name | name in NamesOf(outcomes[..k])
      ensures name in NamesOf(longer)
    {
      var i :| 0 <= i < |outcomes[..k]| && outcomes[..k][i].row.file == name;
      assert longer[i] == outcomes[..k][i];
    }
  }

  // ----- the command

  /** The operands of a run: those given, else the recorded files, else standard input. */
  function Inputs(given: seq<string>, record: Option<seq<Entry>>): seq<string> {
    var files := if record.Some? && given == [] then seq(|record.value|, i requires 0 <= i < |record.value| => record.value[i].file) else given;
    if files == [] then ["-"] else files
  }

  lemma InputsAre(given: seq<string>, record: Option<seq<Entry>>)
    ensures given != [] ==> Inputs(given, record) == given
    ensures given == [] && record.Some? && record.value != [] ==>
              && |Inputs(given, record)| == |record.value|
              && forall i :: 0 <= i < |record.value| ==> Inputs(given, record)[i] == record.value[i].file
    ensures given == [] && (record.None? || record.value == []) ==> Inputs(given, record) == ["-"]
  {
  }

  /** The record names this file. */
  ghost predicate Recorded(record: Option<seq<Entry>>, name: string) {
    record.Some? && exists e :: e in record.value && e.file == name
  }

  /** The record gives this digest for this file. */
  predicate Agrees(record: Option<seq<Entry>>, name: string, sha: string) {
    record.Some? && Entry(name, sha) in record.value
  }

  /** What the row of one operand has to say, given what opening it showed. */
  ghost predicate Judged(operand: string, verdict: Verdict, save: bool, record: Option<seq<Entry>>, o: Outcome) {
    var name := o.row.file;
    && name == (if operand == "" || operand == "-" then "stdin" else operand)
    && (o.row.status == Intact <==> verdict.Opens? && (record.None? || Agrees(record, name, verdict.sha)))
    && (o.row.status == Changed <==> verdict.Opens? && Recorded(record, name) && !Agrees(record, name, verdict.sha))
    && (o.row.status == IsNew <==> verdict.Opens? && record.Some? && !Recorded(record, name))
    && (o.row.status == Missing <==> verdict.NotExist? && Recorded(record, name))
    && (o.failed <==> o.row.status == FailedToOpen)
    && o.row.sha == (if verdict.Opens? && (save || record.Some?) then verdict.sha else "")
    && (if Recorded(record, name) then Agrees(record, name, o.row.baselineSha) else o.row.baselineSha == "")
  }

  lemma ClassifyJudges(operand: string, verdict: Verdict, save: bool, record: Option<seq<Entry>>, index: Option<map<string, Entry>>)
    requires index.Some? <==> record.Some?
    requires record.Some? ==> ValidRecord(record.value)
    requires record.Some? ==> forall f :: f in index.value <==> exists k :: 0 <= k < |record.value| && record.value[k].file == f
    requires record.Some? ==> forall k :: 0 <= k < |record.value| ==> index.value[record.value[k].file] == record.value[k]
    ensures Judged(operand, verdict, save, record, Classify(operand, verdict, save || record.Some?, index))
  {
    var name := NameOf(operand);
    if record.Some? {
      assert name in index.value <==> Recorded(record, name);
      if k :| 0 <= k < |record.value| && record.value[k].file == name {
        assert record.value[k] == index.value[name] == Entry(name, index.value[name].sha);
        assert record.value[k] in record.value;
        assert forall sha :: Agrees(record, name, sha) <==> sha == index.value[name].sha;
      }
    }
  }

  /** From operands to report, whatever the number of jobs and the schedule of the workers. */
  method CmdVerify(given: seq<string>, record: Option<seq<Entry>>, save: bool, files: Files,
                   check: (string, Option<Bytes>) -> Verdict, jobs: nat, cpus: nat)
      returns (rows: seq<Row>, errs: seq<string>, outcomes: seq<Outcome>)
    requires cpus >= 1 && (record.Some? ==> ValidRecord(record.value) && !save)
    ensures |outcomes| == |Inputs(given, record)|
    ensures forall i :: 0 <= i < |outcomes| ==>
              var operand := Inputs(given, record)[i];
              Judged(operand, check(operand, At(files, operand)), save, record, outcomes[i])
    ensures rows == Rows(outcomes) + if record.Some? then Unchecked(record.value, NamesOf(outcomes)) else []
    ensures errs == [] <==> forall i :: 0 <= i < |outcomes| ==> !outcomes[i].failed
  {
    hide Classify, Rows, Unchecked, NamesOf, At, Judged;
    var index: Option<map<string, Entry>> := None;
    if record.Some? {
      var built := BuildIndex(record.value);
      index := Some(built);
    }
    var inputs := Inputs(given, record);
    var job := VerifyJob(check, save || record.Some?, index);
    var after;
    after, outcomes := RunJobs(job, files, inputs, jobs, cpus, "-" in inputs);
    forall i | 0 <= i < |outcomes|
      ensures Judged(inputs[i], check(inputs[i], At(files, inputs[i])), save, record, outcomes[i])
    {
      ClassifyJudges(inputs[i], check(inputs[i], At(files, inputs[i])), save, record, index);
    }
    rows, errs := Report(outcomes, record);
  }

  // ----- what the report promises

  /** No recorded file goes unmentioned: it is an operand, or listed as missing. */
  lemma EveryEntryReported(outcomes: seq<Outcome>, entries: seq<Entry>, e: Entry)
    requires e in entries
    ensures exists row :: row in Rows(outcomes) + Unchecked(entries, NamesOf(outcomes)) && row.file == e.file
  {
    var tail := Unchecked(entries, NamesOf(outcomes));
    if e.file in NamesOf(outcomes) {
      var i :| 0 <= i < |outcomes| && outcomes[i].row.file == e.file;
      assert (Rows(outcomes) + tail)[i] == outcomes[i].row;
    } else {
      UncheckedAre(entries, NamesOf(outcomes), MissingRow(e));
      var j :| 0 <= j < |tail| && tail[j] == MissingRow(e);
      assert (Rows(outcomes) + tail)[|outcomes| + j] == MissingRow(e);
    }
  }

  /** Drift from a baseline never fails the run; only a file that does not open does, and even an
      absent one does not when the baseline lists it. */
  lemma FailsIff(operand: string, verdict: Verdict, wantHash: bool, index: Option<map<string, Entry>>)
    ensures Classify(operand, verdict, wantHash, index).failed
        <==> verdict.Fails? || (verdict.NotExist? && (index.None? || NameOf(operand) !in index.value))
  {
  }

  /** A run on a bare baseline checks every recorded file, so that its report adds nothing,
      exactly when the record does not list a file under the name of standard input. */
  lemma BareBaseline(entries: seq<Entry>, outcomes: seq<Outcome>)
    requires ValidRecord(entries) && |outcomes| == |Inputs([], Some(entries))|
    requires forall i :: 0 <= i < |outcomes| ==> outcomes[i].row.file == NameOf(Inputs([], Some(entries))[i])
    ensures Unchecked(entries, NamesOf(outcomes)) == [] <==> forall k :: 0 <= k < |entries| ==> entries[k].file != "-"
  {
    var inputs := Inputs([], Some(entries));
    var tail := Unchecked(entries, NamesOf(outcomes));
    assert forall i :: 0 <= i < |outcomes| ==> NameOf(inputs[i]) != "-";
    assert "-" !in NamesOf(outcomes);
    forall k | 0 <= k < |entries|
      ensures entries[k].file in NamesOf(outcomes) <==> entries[k].file != "-"
    {
      if entries[k].file != "-" {
        assert outcomes[k].row.file == entries[k].file;
      }
    }
    if tail != [] {
      UncheckedAre(entries, NamesOf(outcomes), tail[0]);
      var e :| e in entries && e.file !in NamesOf(outcomes) && tail[0] == MissingRow(e);
      var k :| 0 <= k < |entries| && entries[k] == e;
    }
    if k :| 0 <= k < |entries| && entries[k].file == "-" {
      UncheckedAre(entries, NamesOf(outcomes), MissingRow(entries[k]));
      assert entries[k] in entries;
      assert MissingRow(entries[k]) in tail;
    }
  }
}
