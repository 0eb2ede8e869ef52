/** The channel-fed worker pools of `verify` and `rotate`: any number of workers, in any
    interleaving, do what one loop over the operands would do. */
module Pool {
  import opened Prelude
  import opened Lists

  type Files = map<string, Bytes>

  function At(files: Files, path: string): Option<Bytes> {
    if path in files then Some(files[path]) else None
  }

  datatype Change<R> = Change(write: Option<Bytes>, result: R)

  /** The work on one file: `look` reads it and either settles the result or goes on to `change`,
      which reads it again and may replace it. */
  datatype Job<!R> = Job(
    look: (string, Option<Bytes>) -> Option<R>,
    change: (string, Option<Bytes>) -> Change<R>)

  function Put(files: Files, path: string, write: Option<Bytes>): Files {
    if write.Some? then files[path := write.value] else files
  }

  // ----- the serial loop

  function RunOne<R>(job: Job<R>, files: Files, path: string): (Files, R) {
    var seen := job.look(path, At(files, path));
    if seen.Some? then (files, seen.value)
    else
      var ch := job.change(path, At(files, path));
      (Put(files, path, ch.write), ch.result)
  }

  function Serial<R>(job: Job<R>, files: Files, paths: seq<string>): (Files, seq<R>) {
    if paths == [] then (files, [])
    else
      var done := Serial(job, files, paths[..|paths| - 1]);
      var one := RunOne(job, done.0, paths[|paths| - 1]);
      (one.0, done.1 + [one.1])
  }

  ghost predicate ReadOnly<R>(job: Job<R>) {
    forall p, f :: job.look(p, f).Some?
  }

  /** Either every operand is its own file or no file is changed. */
  ghost predicate Safe<R>(job: Job<R>, paths: seq<string>) {
    NoDup(paths) || ReadOnly(job)
  }

  function ResultOn<R>(job: Job<R>, path: string, content: Option<Bytes>): R {
    var seen := job.look(path, content);
    if seen.Some? then seen.value else job.change(path, content).result
  }

  function ContentAfter<R>(job: Job<R>, path: string, content: Option<Bytes>): Option<Bytes> {
    if job.look(path, content).Some? || job.change(path, content).write.None? then content
    else job.change(path, content).write
  }

  lemma RunOneAt<R>(job: Job<R>, files: Files, path: string)
    ensures RunOne(job, files, path).1 == ResultOn(job, path, At(files, path))
    ensures At(RunOne(job, files, path).0, path) == ContentAfter(job, path, At(files, path))
    ensures forall p :: p != path ==> At(RunOne(job, files, path).0, p) == At(files, p)
  {
  }

  /** Each operand is worked on as it was at the start. */
  ghost predicate AllDone<R>(job: Job<R>, files0: Files, files: Files, paths: seq<string>, results: seq<R>) {
    && |results| == |paths|
    && (forall i :: 0 <= i < |paths| ==> results[i] == ResultOn(job, paths[i], At(files0, paths[i])))
    && (forall i :: 0 <= i < |paths| ==> At(files, paths[i]) == ContentAfter(job, paths[i], At(files0, paths[i])))
    && (forall p :: p !in paths ==> At(files, p) == At(files0, p))
  }

  lemma {:induction false} SerialAllDone<R>(job: Job<R>, files: Files, paths: seq<string>)
    requires Safe(job, paths)
    ensures AllDone(job, files, Serial(job, files, paths).0, paths, Serial(job, files, paths).1)
  {
    hide RunOne, ResultOn, ContentAfter, At;
    if paths != [] {
      var front, last := paths[..|paths| - 1], paths[|paths| - 1];
      assert paths == front + [last];
      SerialAllDone(job, files, front);
      var done := Serial(job, files, front);
      RunOneAt(job, done.0, last);
      SameContent(job, files, done.0, front, done.1, last, paths);
      if ReadOnly(job) {
        ReadOnlyKeeps(job, last, At(done.0, last));
      }
      forall p | p !in paths
        ensures At(Serial(job, files, paths).0, p) == At(files, p)
      {
        assert p !in front && p != last;
      }
    }
  }

  lemma ReadOnlyKeeps<R>(job: Job<R>, path: string, content: Option<Bytes>)
    requires ReadOnly(job)
    ensures ContentAfter(job, path, content) == content
  {
  }

  lemma SameContent<R>(job: Job<R>, files0: Files, files: Files, front: seq<string>, results: seq<R>, last: string, paths: seq<string>)
    requires AllDone(job, files0, files, front, results) && paths == front + [last] && Safe(job, paths)
    ensures At(files, last) == At(files0, last)
  {
    if last in front {
      var i :| 0 <= i < |front| && front[i] == last;
      assert paths[i] == paths[|front|];
      ReadOnlyKeeps(job, last, At(files0, last));
    }
  }

  /** The outcome is determined by what happens to each operand. */
  lemma AllDoneUnique<R>(job: Job<R>, files0: Files, f: Files, g: Files, paths: seq<string>, r: seq<R>, s: seq<R>)
    requires AllDone(job, files0, f, paths, r) && AllDone(job, files0, g, paths, s)
    ensures f == g && r == s
  {
    hide ResultOn, ContentAfter;
    forall p
      ensures At(f, p) == At(g, p)
    {
      if p in paths {
        var i :| 0 <= i < |paths| && paths[i] == p;
      }
    }
    assert forall p :: p in f <==> At(f, p).Some?;
    assert forall p :: p in g <==> At(g, p).Some?;
    assert f.Keys == g.Keys;
    forall p | p in f
      ensures f[p] == g[p]
    {
      assert At(f, p) == At(g, p);
    }
  }

  // ----- the pool

  datatype Worker<R> =
    | Ready                              // receiving from the task channel
    | Looking(i: nat)
    | Changing(i: nat)
    | Storing(i: nat, result: R)
    | Exited                             // the channel was closed

  /** `next` tasks have been sent; `order` lists the finished ones. */
  datatype State<R> = State(files: Files, results: seq<Option<R>>, workers: seq<Worker<R>>, next: nat, order: seq<nat>)

  predicate Busy<R>(w: Worker<R>) {
    w.Looking? || w.Changing? || w.Storing?
  }

  ghost predicate WorkerOk<R>(job: Job<R>, paths: seq<string>, files0: Files, st: State<R>, w: Worker<R>) {
    match w
    case Ready => true
    case Exited => st.next == |paths|
    case Looking(i) => i < |paths| && At(st.files, paths[i]) == At(files0, paths[i])
    case Changing(i) =>
      && i < |paths| && At(st.files, paths[i]) == At(files0, paths[i])
      && job.look(paths[i], At(files0, paths[i])).None?
    case Storing(i, r) =>
      && i < |paths| && At(st.files, paths[i]) == ContentAfter(job, paths[i], At(files0, paths[i]))
      && r == ResultOn(job, paths[i], At(files0, paths[i]))
  }

  ghost predicate Held<R>(workers: seq<Worker<R>>, i: nat) {
    exists v :: 0 <= v < |workers| && Busy(workers[v]) && workers[v].i == i
  }

  ghost predicate TaskOk<R>(job: Job<R>, paths: seq<string>, files0: Files, st: State<R>, i: nat)
    requires i < |paths| == |st.results|
  {
    if i in st.order then
      && i < st.next && !Held(st.workers, i)
      && st.results[i] == Some(ResultOn(job, paths[i], At(files0, paths[i])))
      && At(st.files, paths[i]) == ContentAfter(job, paths[i], At(files0, paths[i]))
    else if i < st.next then Held(st.workers, i)
    else !Held(st.workers, i) && At(st.files, paths[i]) == At(files0, paths[i])
  }

  ghost predicate OneHolder<R>(workers: seq<Worker<R>>) {
    forall v, w :: 0 <= v < w < |workers| && Busy(workers[v]) && Busy(workers[w]) ==> workers[v].i != workers[w].i
  }

  ghost predicate Invariant<R>(job: Job<R>, paths: seq<string>, files0: Files, st: State<R>) {
    && |st.results| == |paths| && st.next <= |paths|
    && (forall v :: 0 <= v < |st.workers| ==> WorkerOk(job, paths, files0, st, st.workers[v]))
    && (forall i :: 0 <= i < |paths| ==> TaskOk(job, paths, files0, st, i))
    && OneHolder(st.workers)
    && NoDup(st.order) && (forall i: nat :: i in st.order ==> i < |paths|)
    && (forall p :: p !in paths ==> At(st.files, p) == At(files0, p))
  }

  /** The next step of worker v. A ready worker takes the task the sender offers, or finds the
      channel closed. */
  function Step<R>(job: Job<R>, paths: seq<string>, st: State<R>, v: nat): State<R>
    requires v < |st.workers| && !st.workers[v].Exited?
    requires |st.results| == |paths|
    requires Busy(st.workers[v]) ==> st.workers[v].i < |paths|
  {
    match st.workers[v]
    case Ready =>
      if st.next < |paths| then st.(workers := st.workers[v := Looking(st.next)], next := st.next + 1)
      else st.(workers := st.workers[v := Exited])
    case Looking(i) =>
      var seen := job.look(paths[i], At(st.files, paths[i]));
      st.(workers := st.workers[v := if seen.Some? then Storing(i, seen.value) else Changing(i)])
    case Changing(i) =>
      var ch := job.change(paths[i], At(st.files, paths[i]));
      st.(files := Put(st.files, paths[i], ch.write), workers := st.workers[v := Storing(i, ch.result)])
    case Storing(i, r) =>
      st.(results := st.results[i := Some(r)], workers := st.workers[v := Ready], order := st.order + [i])
  }

  function Work<R>(w: Worker<R>): nat {
    match w case Ready => 1 case Looking(_) => 4 case Changing(_) => 3 case Storing(_, _) => 2 case Exited => 0
  }

  lemma HeldUpdate<R>(workers: seq<Worker<R>>, v: nat, w: Worker<R>)
    requires OneHolder(workers) && v < |workers|
    requires Busy(w) ==> (Busy(workers[v]) && workers[v].i == w.i) || !Held(workers, w.i)
    ensures OneHolder(workers[v := w])
    ensures forall j :: Held(workers[v := w], j) <==>
              (Busy(w) && w.i == j) || (Held(workers, j) && !(Busy(workers[v]) && workers[v].i == j))
  {
    var after := workers[v := w];
    forall j
      ensures Held(after, j) <==> (Busy(w) && w.i == j) || (Held(workers, j) && !(Busy(workers[v]) && workers[v].i == j))
    {
      if Held(workers, j) && !(Busy(workers[v]) && workers[v].i == j) {
        var u :| 0 <= u < |workers| && Busy(workers[u]) && workers[u].i == j;
        assert after[u] == workers[u];
      }
      if Busy(w) && w.i == j {
        assert after[v] == w;
      }
      if Held(after, j) {
        var u :| 0 <= u < |after| && Busy(after[u]) && after[u].i == j;
        assert u != v ==> workers[u] == after[u];
      }
    }
  }

  /** A step of a worker on task i touches no other operand's content. */
  lemma Elsewhere<R>(job: Job<R>, paths: seq<string>, files0: Files, st: State<R>, i: nat, j: nat)
    requires Safe(job, paths) && i < |paths| && j < |paths| && i != j
    requires job.look(paths[i], At(files0, paths[i])).None?
    ensures paths[i] != paths[j]
  {
  }

  lemma StepWorkers<R>(job: Job<R>, paths: seq<string>, files0: Files, st: State<R>, v: nat)
    requires Safe(job, paths) && Invariant(job, paths, files0, st) && v < |st.workers| && !st.workers[v].Exited?
    requires Busy(st.workers[v]) ==> st.workers[v].i < |paths|
    ensures var after := Step(job, paths, st, v);
            forall u :: 0 <= u < |after.workers| ==> WorkerOk(job, paths, files0, after, after.workers[u])
  {
    hide Held, TaskOk, NoDup;
    var after := Step(job, paths, st, v);
    forall u | 0 <= u < |after.workers|
      ensures WorkerOk(job, paths, files0, after, after.workers[u])
    {
      assert WorkerOk(job, paths, files0, st, st.workers[v]) && WorkerOk(job, paths, files0, st, st.workers[u]);
      if u == v {
        if st.workers[v].Ready? && st.next < |paths| {
          Untaken(job, paths, files0, st);
        }
      } else if st.workers[v].Changing? && Busy(st.workers[u]) {
        assert if u < v then st.workers[u].i != st.workers[v].i else st.workers[v].i != st.workers[u].i;
        Elsewhere(job, paths, files0, st, st.workers[v].i, st.workers[u].i);
      }
    }
  }

  lemma Untaken<R>(job: Job<R>, paths: seq<string>, files0: Files, st: State<R>)
    requires st.next < |paths| == |st.results| && TaskOk(job, paths, files0, st, st.next)
    ensures At(st.files, paths[st.next]) == At(files0, paths[st.next])
  {
  }

  lemma StepTasks<R>(job: Job<R>, paths: seq<string>, files0: Files, st: State<R>, v: nat)
    requires Safe(job, paths) && Invariant(job, paths, files0, st) && v < |st.workers| && !st.workers[v].Exited?
    requires Busy(st.workers[v]) ==> st.workers[v].i < |paths|
    ensures var after := Step(job, paths, st, v);
            && (forall i :: 0 <= i < |paths| ==> TaskOk(job, paths, files0, after, i))
            && OneHolder(after.workers)
  {
    hide NoDup, ContentAfter, ResultOn, Held, OneHolder;
    var after := Step(job, paths, st, v);
    var mine := st.workers[v];
    assert WorkerOk(job, paths, files0, st, mine);
    if mine.Ready? && st.next < |paths| {
      assert TaskOk(job, paths, files0, st, st.next);
    }
    HeldUpdate(st.workers, v, after.workers[v]);
    forall i | 0 <= i < |paths|
      ensures TaskOk(job, paths, files0, after, i)
    {
      assert TaskOk(job, paths, files0, st, i);
      HolderHolds(st.workers, v);
      if mine.Changing? && i != mine.i {
        Elsewhere(job, paths, files0, st, mine.i, i);
      }
    }
  }

  lemma HolderHolds<R>(workers: seq<Worker<R>>, v: nat)
    requires v < |workers|
    ensures Busy(workers[v]) ==> Held(workers, workers[v].i)
  {
  }

  lemma StepKeeps<R>(job: Job<R>, paths: seq<string>, files0: Files, st: State<R>, v: nat)
    requires Safe(job, paths) && Invariant(job, paths, files0, st) && v < |st.workers| && !st.workers[v].Exited?
    requires Busy(st.workers[v]) ==> st.workers[v].i < |paths|
    ensures Invariant(job, paths, files0, Step(job, paths, st, v))
  {
    hide ContentAfter, ResultOn, Held, OneHolder;
    StepWorkers(job, paths, files0, st, v);
    StepTasks(job, paths, files0, st, v);
    var mine := st.workers[v];
    assert WorkerOk(job, paths, files0, st, mine);
    if mine.Storing? {
      assert TaskOk(job, paths, files0, st, mine.i);
      HolderHolds(st.workers, v);
    }
    if mine.Changing? {
      assert paths[mine.i] in paths;
    }
  }

  lemma StepWork<R>(job: Job<R>, paths: seq<string>, st: State<R>, v: nat)
    requires v < |st.workers| && !st.workers[v].Exited? && |st.results| == |paths| && st.next <= |paths|
    requires Busy(st.workers[v]) ==> st.workers[v].i < |paths|
    ensures var after := Step(job, paths, st, v);
            && after.next <= |paths| && |after.workers| == |st.workers|
            && 4 * (|paths| - after.next) + Total(Work, after.workers) < 4 * (|paths| - st.next) + Total(Work, st.workers)
  {
    TotalUpdate(Work, st.workers, v, Step(job, paths, st, v).workers[v]);
  }

  lemma Begin<R>(job: Job<R>, paths: seq<string>, st: State<R>)
    requires |st.results| == |paths| && st.next == 0 && st.order == []
    requires forall v :: 0 <= v < |st.workers| ==> st.workers[v] == Ready
    ensures Invariant(job, paths, st.files, st)
  {
  }

  /** A worker stays until the channel is closed, so an unsent task always finds a receiver. */
  lemma SomeoneCanStep<R>(job: Job<R>, paths: seq<string>, files0: Files, st: State<R>) returns (v: nat)
    requires Invariant(job, paths, files0, st) && st.workers != []
    requires st.next < |paths| || exists u :: 0 <= u < |st.workers| && !st.workers[u].Exited?
    ensures v < |st.workers| && !st.workers[v].Exited?
  {
    hide TaskOk, OneHolder, NoDup;
    if st.next < |paths| {
      assert WorkerOk(job, paths, files0, st, st.workers[0]);
      v := 0;
    } else {
      var u :| 0 <= u < |st.workers| && !st.workers[u].Exited?;
      v := u;
    }
  }

  lemma End<R>(job: Job<R>, paths: seq<string>, files0: Files, st: State<R>)
    requires Invariant(job, paths, files0, st) && st.next == |paths|
    requires forall u :: 0 <= u < |st.workers| ==> st.workers[u].Exited?
    ensures forall i :: 0 <= i < |paths| ==> i in st.order && st.results[i].Some?
    ensures AllDone(job, files0, st.files, paths, Values(st.results))
    ensures NoDup(st.order) && forall i: nat :: i in st.order <==> i < |paths|
  {
    hide NoDup, OneHolder, ContentAfter, ResultOn, At;
    forall i | 0 <= i < |paths|
      ensures i in st.order && st.results[i] == Some(ResultOn(job, paths[i], At(files0, paths[i])))
      ensures At(st.files, paths[i]) == ContentAfter(job, paths[i], At(files0, paths[i]))
    {
      assert TaskOk(job, paths, files0, st, i);
    }
  }

  function Values<R>(results: seq<Option<R>>): seq<R>
    requires forall i :: 0 <= i < |results| ==> results[i].Some?
  {
    seq(|results|, i requires 0 <= i < |results| => results[i].value)
  }

  /** Hands the operands to `workers` goroutines, which step in any order; `order` is the order
      the results came in. Files and results are those of the serial loop. */
  method RunPool<R>(job: Job<R>, files: Files, paths: seq<string>, workers: nat)
      returns (after: Files, results: seq<R>, order: seq<nat>)
    requires Safe(job, paths) && workers >= 1
    ensures (after, results) == Serial(job, files, paths)
    ensures NoDup(order) && forall i: nat :: i in order <==> i < |paths|
  {
    hide Invariant, Serial, AllDone, NoDup, Total, Work;
    var st := State(files, seq(|paths|, _ => None), seq(workers, _ => Ready), 0, []);
    Begin(job, paths, st);
    while st.next < |paths| || exists v :: 0 <= v < |st.workers| && !st.workers[v].Exited?
      invariant Invariant(job, paths, files, st) && |st.workers| == workers
      invariant |st.results| == |paths| && st.next <= |paths|
      decreases 4 * (|paths| - st.next) + Total(Work, st.workers)
    {
      ghost var w := SomeoneCanStep(job, paths, files, st);
      var v :| 0 <= v < |st.workers| && !st.workers[v].Exited?;
      Fits(job, paths, files, st, v);
      StepKeeps(job, paths, files, st, v);
      StepWork(job, paths, st, v);
      st := Step(job, paths, st, v);
    }
    End(job, paths, files, st);
    after, results, order := st.files, Values(st.results), st.order;
    SerialAllDone(job, files, paths);
    AllDoneUnique(job, files, after, Serial(job, files, paths).0, paths, results, Serial(job, files, paths).1);
  }

  lemma Fits<R>(job: Job<R>, paths: seq<string>, files0: Files, st: State<R>, v: nat)
    requires Invariant(job, paths, files0, st) && v < |st.workers|
    ensures Busy(st.workers[v]) ==> st.workers[v].i < |paths|
  {
    assert WorkerOk(job, paths, files0, st, st.workers[v]);
  }

  // ----- the choice between the loop and the pool

  /** How many workers run: as many as asked for, at most one per operand; by default up to four. */
  function PoolSize(jobs: nat, operands: nat, cpus: nat, usesStdin: bool): (workers: nat)
    requires cpus >= 1
    ensures workers >= 1
    ensures operands >= 2 && !usesStdin ==> workers == if jobs == 0 then Min(cpus, 4) else Min(jobs, operands)
    ensures workers > 1 ==> operands >= 2 && !usesStdin && workers <= (if jobs == 0 then 4 else Min(jobs, operands))
  {
    var asked := if jobs > operands then operands else jobs;
    var chosen := if asked == 0 then Min(cpus, 4) else asked;
    if chosen > 1 && (usesStdin || operands < 2) then 1 else chosen
  }

  lemma SerialStep<R>(job: Job<R>, files: Files, paths: seq<string>, k: nat)
    requires k < |paths|
    ensures var done := Serial(job, files, paths[..k]);
            var one := RunOne(job, done.0, paths[k]);
            Serial(job, files, paths[..k + 1]) == (one.0, done.1 + [one.1])
  {
    assert paths[..k + 1][..k] == paths[..k];
  }

  /** The whole of it: however many jobs are asked for, the outcome is the loop's. */
  method RunJobs<R>(job: Job<R>, files: Files, paths: seq<string>, jobs: nat, cpus: nat, usesStdin: bool)
      returns (after: Files, results: seq<R>)
    requires Safe(job, paths) && cpus >= 1
    ensures (after, results) == Serial(job, files, paths)
    ensures AllDone(job, files, after, paths, results)
  {
    hide Serial, AllDone, Safe, RunOne;
    var workers := PoolSize(jobs, |paths|, cpus, usesStdin);
    SerialAllDone(job, files, paths);
    if workers > 1 {
      var order;
      after, results, order := RunPool(job, files, paths, workers);
      return;
    }
    after, results := files, [];
    SerialEmpty(job, files, paths);
    for k := 0 to |paths|
      invariant (after, results) == Serial(job, files, paths[..k])
    {
      SerialStep(job, files, paths, k);
      var one := RunOne(job, after, paths[k]);
      after, results := one.0, results + [one.1];
    }
    assert paths[..|paths|] == paths;
  }

  lemma SerialEmpty<R>(job: Job<R>, files: Files, paths: seq<string>)
    ensures Serial(job, files, paths[..0]) == (files, [])
  {
  }
}
