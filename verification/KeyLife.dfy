/** The life of an X-Wing private key shared by threads: `Seed`, `PublicKey`, `Decapsulate` and
    `Wipe` under one mutex, in steps small enough that a missing lock would show. */
module KeyLife {
  import opened Prelude
  import opened Crypto

  const SEED := 32

  datatype Call = CallSeed | CallPublicKey | CallDecapsulate(ct: Bytes) | CallWipe

  datatype Answer = Value(bytes: Bytes) | Failed | Done

  /** Where a thread is in its current call; `since` is how many calls had returned when it began. */
  datatype Phase =
    | Idle
    | Waiting(call: Call, since: nat)
    | CopyingSeed(copied: Bytes, since: nat)
    | Decapsulating(ct: Bytes, since: nat)
    | Zeroing(zeroed: nat, since: nat)

  datatype Thread = Thread(todo: seq<Call>, phase: Phase)

  /** A call that has returned. */
  datatype Event = Returned(caller: nat, call: Call, answer: Answer, since: nat)

  /** The fields of the key and the mutex. */
  datatype Key = Key(
    holder: Option<nat>,
    seed: Bytes,
    expanded: Option<Bytes>,  // dkM and skX, here the seed they were derived from
    wiped: bool)

  // ----- what one thread alone would see

  /** The answer of a key used by one thread, given whether it has been wiped. */
  function Sequential(c: Suite, seed: Bytes, wiped: bool, call: Call): Answer {
    match call
    case CallSeed => Value(if wiped then Zeros(SEED) else seed)
    case CallPublicKey => Value(PublicKey(c, seed))
    case CallDecapsulate(ct) =>
      if wiped then Failed else Secret(Decapsulate(c, seed, ct))
    case CallWipe => Done
  }

  function Secret(shared: Option<Bytes>): Answer {
    if shared.Some? then Value(shared.value) else Failed
  }

  predicate Wiped(log: seq<Event>) {
    exists k :: 0 <= k < |log| && log[k].call == CallWipe
  }

  /** The calls, in the order they returned, are a run of a key used by one thread. */
  ghost predicate Linear(c: Suite, seed: Bytes, log: seq<Event>) {
    forall k :: 0 <= k < |log| ==>
      log[k].since <= k && log[k].answer == Sequential(c, seed, Wiped(log[..k]), log[k].call)
  }

  /** The calls thread i has finished, oldest first. */
  function CallsBy(log: seq<Event>, i: nat): seq<Call> {
    if log == [] then []
    else
      var last := log[|log| - 1];
      CallsBy(log[..|log| - 1], i) + if last.caller == i then [last.call] else []
  }

  lemma CallsByAppend(log: seq<Event>, e: Event, i: nat)
    ensures CallsBy(log + [e], i) == CallsBy(log, i) + if e.caller == i then [e.call] else []
  {
    assert (log + [e])[..|log|] == log;
  }

  // ----- threads

  /** The call under way, if any. */
  function Current(p: Phase): (calls: seq<Call>)
    ensures |calls| == if p.Idle? then 0 else 1
  {
    match p
    case Idle => []
    case Waiting(call, _) => [call]
    case CopyingSeed(_, _) => [CallSeed]
    case Decapsulating(ct, _) => [CallDecapsulate(ct)]
    case Zeroing(_, _) => [CallWipe]
  }

  predicate Critical(p: Phase) {
    p.CopyingSeed? || p.Decapsulating? || p.Zeroing?
  }

  predicate Finished(t: Thread) {
    t.todo == [] && t.phase.Idle?
  }

  function Work(t: Thread): nat {
    50 * |t.todo| + match t.phase
      case Idle => 0
      case Waiting(_, _) => 45
      case CopyingSeed(copied, _) => if |copied| <= SEED then 1 + SEED - |copied| else 0
      case Decapsulating(_, _) => 1
      case Zeroing(n, _) => if n <= SEED then 1 + SEED - n else 0
  }

  // ----- the invariant

  ghost predicate Whole(seed: Bytes, key: Key) {
    && |seed| == |key.seed| == SEED
    && key.seed == (if key.wiped then Zeros(SEED) else seed)
    && key.expanded == (if key.wiped then None else Some(seed))
  }

  /** The key as its holder, if any, has left it. */
  ghost predicate KeyOk(seed: Bytes, ts: seq<Thread>, key: Key) {
    match key.holder
    case None => Whole(seed, key)
    case Some(h) =>
      && h < |ts|
      && match ts[h].phase
         case CopyingSeed(copied, _) => Whole(seed, key) && |copied| <= SEED && copied == key.seed[..|copied|]
         case Decapsulating(_, _) => Whole(seed, key) && !key.wiped
         case Zeroing(n, _) => n <= SEED && |key.seed| == SEED && forall k :: 0 <= k < n ==> key.seed[k] == 0
         case _ => false
  }

  ghost predicate ThreadOk(program: seq<Call>, t: Thread, log: seq<Event>, i: nat) {
    && CallsBy(log, i) + Current(t.phase) + t.todo == program
    && (!t.phase.Idle? ==> t.phase.since <= |log|)
  }

  ghost predicate Invariant(c: Suite, seed: Bytes, programs: seq<seq<Call>>, ts: seq<Thread>, key: Key, log: seq<Event>) {
    && |ts| == |programs|
    && KeyOk(seed, ts, key)
    && (forall i :: 0 <= i < |ts| && Critical(ts[i].phase) ==> key.holder == Some(i))
    && (key.wiped <==> Wiped(log))
    && (forall i :: 0 <= i < |ts| ==> ThreadOk(programs[i], ts[i], log, i))
    && Linear(c, seed, log)
  }

  // ----- one step of one thread

  /** A waiting thread can move only when the mutex is free, a thread inside only if it holds it. */
  predicate CanStep(ts: seq<Thread>, key: Key, i: nat)
    requires i < |ts|
  {
    match ts[i].phase
    case Idle => ts[i].todo != []
    case Waiting(call, _) => call == CallPublicKey || key.holder.None?
    case _ => key.holder == Some(i)
  }

  datatype Outcome = Outcome(thread: Thread, key: Key, answer: Option<Answer>)

  /** The step finds the fields it uses in place. */
  predicate Fits(p: Phase, key: Key) {
    && (p.CopyingSeed? ==> |p.copied| <= |key.seed|)
    && (p.Decapsulating? ==> key.expanded.Some?)
    && (p.Zeroing? ==> |key.seed| == SEED)
  }

  /** The next step of thread i, which may lock, work on the key or return. */
  function Next(c: Suite, pub: Bytes, t: Thread, key: Key, returned: nat, i: nat): Outcome
    requires Fits(t.phase, key) && (t.phase.Idle? ==> t.todo != [])
  {
    match t.phase
    case Idle => Outcome(Thread(t.todo[1..], Waiting(t.todo[0], returned)), key, None)
    case Waiting(call, since) =>
      (match call
       case CallPublicKey => Outcome(t.(phase := Idle), key, Some(Value(pub)))
       case CallSeed => Outcome(t.(phase := CopyingSeed([], since)), key.(holder := Some(i)), None)
       case CallWipe => Outcome(t.(phase := Zeroing(0, since)), key.(holder := Some(i)), None)
       case CallDecapsulate(ct) =>
         if key.wiped then Outcome(t.(phase := Idle), key, Some(Failed))
         else Outcome(t.(phase := Decapsulating(ct, since)), key.(holder := Some(i)), None))
    case CopyingSeed(copied, since) =>
      if |copied| < |key.seed| then
        Outcome(t.(phase := CopyingSeed(copied + [key.seed[|copied|]], since)), key, None)
      else Outcome(t.(phase := Idle), key.(holder := None), Some(Value(copied)))
    case Decapsulating(ct, _) =>
      Outcome(t.(phase := Idle), key.(holder := None), Some(Secret(Decapsulate(c, key.expanded.value, ct))))
    case Zeroing(n, since) =>
      if n < SEED then Outcome(t.(phase := Zeroing(n + 1, since)), key.(seed := key.seed[n := 0]), None)
      else Outcome(t.(phase := Idle), key.(holder := None, expanded := None, wiped := true), Some(Done))
  }

  function Logged(log: seq<Event>, t: Thread, answer: Option<Answer>, i: nat): seq<Event>
    requires answer.Some? ==> !t.phase.Idle?
  {
    if answer.Some? then log + [Returned(i, Current(t.phase)[0], answer.value, t.phase.since)] else log
  }

  // ----- every step keeps the invariant

  lemma StepFits(c: Suite, seed: Bytes, programs: seq<seq<Call>>, ts: seq<Thread>, key: Key, log: seq<Event>, i: nat)
    requires Invariant(c, seed, programs, ts, key, log) && i < |ts| && CanStep(ts, key, i)
    ensures Fits(ts[i].phase, key)
    ensures ts[i].phase.Idle? ==> ts[i].todo != []
  {
    hide Lawful, Linear, ThreadOk, Wiped;
  }

  lemma StepKey(c: Suite, pub: Bytes, seed: Bytes, ts: seq<Thread>, key: Key, n: nat, i: nat)
    requires |seed| == SEED && KeyOk(seed, ts, key) && i < |ts| && CanStep(ts, key, i) && Fits(ts[i].phase, key)
    requires forall j :: 0 <= j < |ts| && Critical(ts[j].phase) ==> key.holder == Some(j)
    ensures var o := Next(c, pub, ts[i], key, n, i);
            && KeyOk(seed, ts[i := o.thread], o.key)
            && (forall j :: 0 <= j < |ts| && Critical(ts[i := o.thread][j].phase) ==> o.key.holder == Some(j))
            && Work(o.thread) < Work(ts[i])
            && (o.key.wiped <==> key.wiped || (o.answer.Some? && Current(ts[i].phase) == [CallWipe]))
  {
    hide Lawful, Decapsulate, Secret;
    var o := Next(c, pub, ts[i], key, n, i);
    if ts[i].phase.Zeroing? && ts[i].phase.zeroed == SEED {
      assert key.seed == Zeros(SEED);
    }
  }

  /** A call returns what the unshared key would return at this point of the log. */
  lemma StepAnswer(c: Suite, seed: Bytes, ts: seq<Thread>, key: Key, n: nat, i: nat)
    requires |seed| == SEED && KeyOk(seed, ts, key) && i < |ts| && CanStep(ts, key, i) && Fits(ts[i].phase, key)
    ensures var o := Next(c, PublicKey(c, seed), ts[i], key, n, i);
            o.answer.Some? ==>
              && !ts[i].phase.Idle? && o.thread == ts[i].(phase := Idle)
              && o.answer.value == Sequential(c, seed, key.wiped, Current(ts[i].phase)[0])
    ensures var o := Next(c, PublicKey(c, seed), ts[i], key, n, i);
            o.answer.None? ==>
              && Current(o.thread.phase) + o.thread.todo == Current(ts[i].phase) + ts[i].todo
              && !o.thread.phase.Idle?
              && o.thread.phase.since == if ts[i].phase.Idle? then n else ts[i].phase.since
  {
    hide Lawful, Decapsulate, Secret, PublicKey;
    if ts[i].phase.CopyingSeed? {
      assert key.seed[..|key.seed|] == key.seed;
    }
  }

  lemma LinearAppend(c: Suite, seed: Bytes, log: seq<Event>, e: Event)
    requires Linear(c, seed, log)
    requires e.since <= |log| && e.answer == Sequential(c, seed, Wiped(log), e.call)
    ensures Linear(c, seed, log + [e])
  {
    hide Lawful, Wiped, Sequential;
    var longer := log + [e];
    forall k | 0 <= k < |longer|
      ensures longer[k].since <= k && longer[k].answer == Sequential(c, seed, Wiped(longer[..k]), longer[k].call)
    {
      if k < |log| {
        assert longer[..k] == log[..k];
      } else {
        assert longer[..k] == log;
      }
    }
  }

  lemma WipedAppend(log: seq<Event>, e: Event)
    ensures Wiped(log + [e]) <==> Wiped(log) || e.call == CallWipe
  {
    if Wiped(log) {
      var k :| 0 <= k < |log| && log[k].call == CallWipe;
      assert (log + [e])[k] == log[k];
    }
    if e.call == CallWipe {
      assert (log + [e])[|log|] == e;
    }
  }

  /** Thread i moved: every thread still has its program, partly done. */
  lemma StepThreads(programs: seq<seq<Call>>, ts: seq<Thread>, log: seq<Event>, i: nat, o: Outcome)
    requires |ts| == |programs| && i < |ts|
    requires forall j :: 0 <= j < |ts| ==> ThreadOk(programs[j], ts[j], log, j)
    requires o.answer.Some? ==> !ts[i].phase.Idle? && o.thread == ts[i].(phase := Idle)
    requires o.answer.None? ==>
               && Current(o.thread.phase) + o.thread.todo == Current(ts[i].phase) + ts[i].todo
               && !o.thread.phase.Idle?
               && o.thread.phase.since == if ts[i].phase.Idle? then |log| else ts[i].phase.since
    ensures forall j :: 0 <= j < |ts| ==>
              ThreadOk(programs[j], ts[i := o.thread][j], Logged(log, ts[i], o.answer, i), j)
  {
    hide ThreadOk, Logged;
    forall j | 0 <= j < |ts|
      ensures ThreadOk(programs[j], ts[i := o.thread][j], Logged(log, ts[i], o.answer, i), j)
    {
      if j == i {
        OwnThread(programs[i], ts[i], log, i, o);
      } else {
        OtherThread(programs[j], ts[j], log, j, ts[i], o, i);
      }
    }
  }

  lemma OwnThread(program: seq<Call>, t: Thread, log: seq<Event>, i: nat, o: Outcome)
    requires ThreadOk(program, t, log, i)
    requires o.answer.Some? ==> !t.phase.Idle? && o.thread == t.(phase := Idle)
    requires o.answer.None? ==>
               && Current(o.thread.phase) + o.thread.todo == Current(t.phase) + t.todo
               && !o.thread.phase.Idle?
               && o.thread.phase.since == if t.phase.Idle? then |log| else t.phase.since
    ensures ThreadOk(program, o.thread, Logged(log, t, o.answer, i), i)
  {
    hide CallsBy, Current;
    if o.answer.Some? {
      var e := Returned(i, Current(t.phase)[0], o.answer.value, t.phase.since);
      CallsByAppend(log, e, i);
      assert Current(t.phase) == [e.call];
    } else {
      assert CallsBy(log, i) + Current(t.phase) + t.todo == CallsBy(log, i) + (Current(t.phase) + t.todo);
      assert CallsBy(log, i) + Current(o.thread.phase) + o.thread.todo
          == CallsBy(log, i) + (Current(o.thread.phase) + o.thread.todo);
    }
  }

  lemma OtherThread(program: seq<Call>, other: Thread, log: seq<Event>, j: nat, t: Thread, o: Outcome, i: nat)
    requires ThreadOk(program, other, log, j) && j != i
    requires o.answer.Some? ==> !t.phase.Idle?
    ensures ThreadOk(program, other, Logged(log, t, o.answer, i), j)
  {
    hide CallsBy, Current;
    if o.answer.Some? {
      CallsByAppend(log, Returned(i, Current(t.phase)[0], o.answer.value, t.phase.since), j);
    }
  }

  lemma {:induction false} StepKeeps(c: Suite, seed: Bytes, programs: seq<seq<Call>>, ts: seq<Thread>, key: Key, log: seq<Event>, i: nat)
    requires |seed| == SEED && Invariant(c, seed, programs, ts, key, log)
    requires i < |ts| && CanStep(ts, key, i) && Fits(ts[i].phase, key) && (ts[i].phase.Idle? ==> ts[i].todo != [])
    ensures var o := Next(c, PublicKey(c, seed), ts[i], key, |log|, i);
            && (o.answer.Some? ==> !ts[i].phase.Idle?)
            && Invariant(c, seed, programs, ts[i := o.thread], o.key, Logged(log, ts[i], o.answer, i))
            && Work(o.thread) < Work(ts[i])
  {
    hide Lawful, PublicKey, Sequential, Next, KeyOk, CanStep, Fits, Work, ThreadOk, Linear, Wiped, Critical;
    var o := Next(c, PublicKey(c, seed), ts[i], key, |log|, i);
    StepKey(c, PublicKey(c, seed), seed, ts, key, |log|, i);
    StepAnswer(c, seed, ts, key, |log|, i);
    StepThreads(programs, ts, log, i, o);
    if o.answer.Some? {
      var e := Returned(i, Current(ts[i].phase)[0], o.answer.value, ts[i].phase.since);
      assert e.since <= |log| by {
        assert ThreadOk(programs[i], ts[i], log, i);
        ThreadSince(programs[i], ts[i], log, i);
      }
      LinearAppend(c, seed, log, e);
      WipedAppend(log, e);
      assert Current(ts[i].phase) == [e.call];
    }
  }

  lemma ThreadSince(program: seq<Call>, t: Thread, log: seq<Event>, i: nat)
    requires ThreadOk(program, t, log, i) && !t.phase.Idle?
    ensures t.phase.since <= |log|
  {
  }

  /** No deadlock: while a call is unfinished some thread can move. */
  lemma SomeoneCanStep(c: Suite, seed: Bytes, programs: seq<seq<Call>>, ts: seq<Thread>, key: Key, log: seq<Event>)
      returns (i: nat)
    requires Invariant(c, seed, programs, ts, key, log)
    requires exists k :: 0 <= k < |ts| && !Finished(ts[k])
    ensures i < |ts| && CanStep(ts, key, i)
  {
    hide Lawful, Linear, ThreadOk, Wiped;
    if key.holder.Some? {
      i := key.holder.value;
    } else {
      var k :| 0 <= k < |ts| && !Finished(ts[k]);
      i := k;
    }
  }

  // ----- every interleaving

  /** Runs the threads, each making its calls in order, in any interleaving of their steps. Every
      call returns, and together they look like the calls of one thread in the order they returned. */
  method RunCalls(c: Suite, seed: Bytes, programs: seq<seq<Call>>) returns (log: seq<Event>)
    requires |seed| == SEED
    ensures Linear(c, seed, log)
    ensures forall i :: 0 <= i < |programs| ==> CallsBy(log, i) == programs[i]
    ensures forall e :: e in log ==> e.caller < |programs|
  {
    hide Lawful, Invariant, Next, CanStep, Fits, Total, Work, Linear, CallsBy, PublicKey;
    var ts := seq(|programs|, i requires 0 <= i < |programs| => Thread(programs[i], Idle));
    var key := Key(None, seed, Some(seed), false);
    var pub := PublicKey(c, seed);
    log := [];
    Begin(c, seed, programs, ts, key);
    while exists k :: 0 <= k < |ts| && !Finished(ts[k])
      invariant Invariant(c, seed, programs, ts, key, log)
      invariant |ts| == |programs| && forall e :: e in log ==> e.caller < |programs|
      decreases Total(Work, ts)
    {
      ghost var w := SomeoneCanStep(c, seed, programs, ts, key, log);
      var i :| 0 <= i < |ts| && CanStep(ts, key, i);
      StepFits(c, seed, programs, ts, key, log, i);
      StepKeeps(c, seed, programs, ts, key, log, i);
      var o := Next(c, pub, ts[i], key, |log|, i);
      TotalUpdate(Work, ts, i, o.thread);
      log := Logged(log, ts[i], o.answer, i);
      ts, key := ts[i := o.thread], o.key;
    }
    End(c, seed, programs, ts, key, log);
  }

  lemma Begin(c: Suite, seed: Bytes, programs: seq<seq<Call>>, ts: seq<Thread>, key: Key)
    requires |seed| == SEED && |ts| == |programs| && key == Key(None, seed, Some(seed), false)
    requires forall i :: 0 <= i < |ts| ==> ts[i] == Thread(programs[i], Idle)
    ensures Invariant(c, seed, programs, ts, key, [])
  {
    hide Lawful;
  }

  lemma End(c: Suite, seed: Bytes, programs: seq<seq<Call>>, ts: seq<Thread>, key: Key, log: seq<Event>)
    requires Invariant(c, seed, programs, ts, key, log)
    requires forall k :: 0 <= k < |ts| ==> Finished(ts[k])
    ensures Linear(c, seed, log)
    ensures forall i :: 0 <= i < |programs| ==> CallsBy(log, i) == programs[i]
  {
    hide Lawful, Linear, KeyOk, CallsBy;
    forall i | 0 <= i < |programs|
      ensures CallsBy(log, i) == programs[i]
    {
      assert ThreadOk(programs[i], ts[i], log, i) && Finished(ts[i]);
    }
  }

  // ----- what linearity means for callers

  /** Until some Wipe has returned: the seed is the key's own, whole; the public key is its; and whatever
      was encapsulated to that public key is recovered. */
  lemma BeforeWipe(c: Suite, seed: Bytes, log: seq<Event>, k: nat, coins: Bytes)
    requires Linear(c, seed, log) && k < |log|
    requires forall j :: 0 <= j < k ==> log[j].call != CallWipe
    ensures log[k].call == CallSeed ==> log[k].answer == Value(seed)
    ensures log[k].call == CallPublicKey ==> log[k].answer == Value(PublicKey(c, seed))
    ensures var e := Encapsulate(c, PublicKey(c, seed), coins);
            e.Some? && log[k].call == CallDecapsulate(e.value.1) ==> log[k].answer == Value(e.value.0)
    ensures log[k].call.CallDecapsulate? && |log[k].call.ct| != KEM_CIPHERTEXT ==> log[k].answer == Failed
  {
    hide Lawful;
    DecapsulateEncapsulated(c, seed, coins);
    assert !Wiped(log[..k]);
  }

  /** Once some Wipe has returned, so for every call that began after that, the seed is all zeroes and
      no secret is recovered, but the public key is still there. */
  lemma AfterWipe(c: Suite, seed: Bytes, log: seq<Event>, j: nat, k: nat)
    requires Linear(c, seed, log) && j < k < |log| && log[j].call == CallWipe
    ensures log[k].call == CallSeed ==> log[k].answer == Value(seq(32, _ => 0))
    ensures log[k].call.CallDecapsulate? ==> log[k].answer == Failed
    ensures log[k].call == CallPublicKey ==> log[k].answer == Value(PublicKey(c, seed))
  {
    hide Lawful, PublicKey;
    assert log[..k][j] == log[j];
  }

  /** A call that began when j's had returned comes after it. */
  lemma BeganAfter(c: Suite, seed: Bytes, log: seq<Event>, j: nat, k: nat)
    requires Linear(c, seed, log) && k < |log| && j < log[k].since
    ensures j < k
  {
    hide Lawful;
  }

  lemma {:induction false} CalledBy(log: seq<Event>, k: nat)
    requires k < |log|
    ensures log[k].call in CallsBy(log, log[k].caller)
  {
    if k < |log| - 1 {
      CalledBy(log[..|log| - 1], k);
    }
  }

  /** When no thread ever wipes, every answer is the fresh key's. */
  lemma {:induction false} WithoutWipe(c: Suite, seed: Bytes, programs: seq<seq<Call>>, log: seq<Event>, k: nat, coins: Bytes)
    requires Linear(c, seed, log) && k < |log|
    requires forall i :: 0 <= i < |programs| ==> CallsBy(log, i) == programs[i] && CallWipe !in programs[i]
    requires forall e :: e in log ==> e.caller < |programs|
    ensures log[k].call == CallSeed ==> log[k].answer == Value(seed)
    ensures log[k].call == CallPublicKey ==> log[k].answer == Value(PublicKey(c, seed))
    ensures var e := Encapsulate(c, PublicKey(c, seed), coins);
            e.Some? && log[k].call == CallDecapsulate(e.value.1) ==> log[k].answer == Value(e.value.0)
  {
    hide Lawful, Linear, CallsBy, PublicKey, Encapsulate;
    forall j | 0 <= j < k
      ensures log[j].call != CallWipe
    {
      assert log[j] in log;
      CalledBy(log, j);
    }
    BeforeWipe(c, seed, log, k, coins);
  }
}
