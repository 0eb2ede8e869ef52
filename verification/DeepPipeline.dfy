/** Deep rewrap: a producer goroutine decrypts the old payload into a pipe while the caller
    re-encrypts what comes out of it.  The pipe is an unbuffered rendezvous: a write ends when
    readers have taken all of it, or when the read end is closed. */
module DeepPipeline {
  import opened Prelude
  import opened Crypto
  import opened Streams
  import opened Payload
  import opened Slots
  import opened Box

  /** What deep `Rewrap` writes. */
  function DeepRewrap(c: Suite, file: Bytes, ending: Option<Error>, creds: Credentials, opts: SealOptions, drawn: FreshKey, coins: Coins): Written {
    if Validate(opts).Some? then Written([], Validate(opts))
    else match Unlock(c, file, creds)
      case Err(e) => Written([], Some(e))
      case Ok((u, payload)) =>
        var o := OpenAll(c, PayloadKey(c, u.key, u.nonce), payload, ending);
        SealFile(c, o.plain, o.err, opts, drawn, coins)
  }

  /** `openPayload` in the goroutine, then `CloseWithError`. */
  datatype Producer =
    | Reading
    | Offering(data: Bytes, last: bool)  // inside a pipe write; data is what no reader has taken yet
    | Closing(err: Option<Error>)
    | Finished(err: Option<Error>)       // write end closed, done channel closed
  {
    function Rank(): nat {
      match this case Offering(_, _) => 3 case Reading => 2 case Closing(_) => 1 case Finished(_) => 0
    }

    function Pending(): nat {
      if Offering? then |data| else 0
    }
  }

  /** `sealPayload` in the caller, then closing the read end and joining. */
  datatype Consumer =
    | Receiving                          // a chunk and one byte more are wanted
    | Writing(chunk: Bytes, last: bool)
    | Returned(err: Option<Error>)
    | Joining(err: Option<Error>)        // read end closed, waiting for done
    | Ended(err: Option<Error>)          // the old payload key is wiped
  {
    function Rank(): nat {
      match this
      case Writing(_, last) => if last then 4 else 6
      case Receiving => 5
      case Returned(_) => 3
      case Joining(_) => 2
      case Ended(_) => 0
    }
  }

  /** `sent` has crossed the pipe so far; i counts the chunks opened. */
  ghost predicate Producing(c: Suite, key: Bytes, whole: Opened, i: nat, p: Producer, sent: Bytes, left: Bytes, ending: Option<Error>) {
    match p
    case Reading => whole == After(sent, OpenFrom(c, key, i, left, ending))
    case Offering(d, last) => whole == After(sent + d, if last then Opened([], None) else OpenFrom(c, key, i, left, ending))
    case Closing(e) => whole == Opened(sent, e)
    case Finished(e) => whole == Opened(sent, e)
  }

  /** `buf` has been received but not sealed; `data` is the output so far. */
  ghost predicate Consuming(c: Suite, key: Bytes, whole: Opened, before: Bytes, data: Bytes, done: seq<Chunk>, k: Consumer, buf: Bytes, sent: Bytes) {
    && sent <= whole.plain
    && var plan, end, future := Plan(0, whole.plain, whole.err), SealEnd(whole.plain, whole.err), whole.plain[|sent|..];
    match k
    case Receiving => Sealing(c, key, before, data, plan, done, buf + future, whole.err, end)
    case Writing(chunk, last) =>
      && Sealing(c, key, before, data, plan, done, chunk + (buf + future), whole.err, end)
      && |chunk| == Min(CHUNK, |chunk + (buf + future)|)
      && last == (|chunk + (buf + future)| <= CHUNK)
      && (last ==> end.None? && buf == [])
    case _ => true
  }

  ghost predicate Running(k: Consumer) {
    k.Receiving? || k.Writing?
  }

  // ----- the steps

  lemma StartPipeline(c: Suite, oldKey: Bytes, newKey: Bytes, left: Bytes, ending: Option<Error>, before: Bytes)
    ensures var whole := OpenAll(c, oldKey, left, ending);
            && Producing(c, oldKey, whole, 0, Reading, [], left, ending)
            && Consuming(c, newKey, whole, before, before, [], Receiving, [], [])
  {
    hide Lawful, OpenFrom, Plan;
    var whole := OpenAll(c, oldKey, left, ending);
    assert [] + whole.plain == whole.plain && whole.plain[0..] == whole.plain;
    SealNothing(c, newKey, before, whole.plain, whole.err);
  }

  lemma ProducerRead(c: Suite, key: Bytes, whole: Opened, i: nat, sent: Bytes, left: Bytes, sealed: Bytes, rest: Bytes, ending: Option<Error>)
    requires Producing(c, key, whole, i, Reading, sent, left, ending)
    requires left == sealed + rest && |sealed| == Min(FULL, |left|)
    ensures var last := |left| <= FULL;
            var one := OpenOne(c, key, i, sealed, last, ending);
            Producing(c, key, whole, i + 1, if one.err.Some? then Closing(one.err) else Offering(one.plain, last), sent, rest, ending)
  {
    hide Lawful, OpenFrom, Nonce;
    var one, tail := OpenStep(c, key, i, left, sealed, rest, ending);
    AfterTwice(sent, one.plain, tail);
    if one.err.Some? {
      assert one.plain == [];
      assert sent + [] + [] == sent;
    }
  }

  /** Bytes `moved` of an offer cross to the consumer. */
  lemma Rendezvous(c: Suite, key: Bytes, newKey: Bytes, whole: Opened, i: nat, p: Producer, sent: Bytes, left: Bytes, ending: Option<Error>,
                   before: Bytes, data: Bytes, done: seq<Chunk>, buf: Bytes, moved: Bytes, kept: Bytes)
    requires p.Offering? && p.data == moved + kept
    requires Producing(c, key, whole, i, p, sent, left, ending)
    requires Consuming(c, newKey, whole, before, data, done, Receiving, buf, sent)
    ensures Producing(c, key, whole, i, AfterWrite(kept, p.last), sent + moved, left, ending)
    ensures Consuming(c, newKey, whole, before, data, done, Receiving, buf + moved, sent + moved)
  {
    hide Lawful, OpenFrom, Plan, Sealing;
    Assoc(sent, moved, kept);
    var future := whole.plain[|sent|..];
    var rest := if p.last then Opened([], None) else OpenFrom(c, key, i, left, ending);
    assert whole.plain == sent + moved + (kept + rest.plain) by { Assoc(sent + moved, kept, rest.plain); }
    assert whole.plain[|sent + moved|..] == kept + rest.plain;
    assert future == moved + (kept + rest.plain);
    Assoc(buf, moved, kept + rest.plain);
    if kept == [] {
      assert sent + moved + [] == sent + moved;
    }
  }

  function AfterWrite(kept: Bytes, last: bool): Producer {
    if kept != [] then Offering(kept, last) else if last then Closing(None) else Reading
  }

  /** Enough has arrived for a chunk that cannot be the last. */
  lemma {:induction false} CutChunk(c: Suite, key: Bytes, whole: Opened, before: Bytes, data: Bytes, done: seq<Chunk>, buf: Bytes, sent: Bytes)
    requires Consuming(c, key, whole, before, data, done, Receiving, buf, sent) && |buf| > CHUNK
    ensures Consuming(c, key, whole, before, data, done, Writing(buf[..CHUNK], false), buf[CHUNK..], sent)
  {
    hide Lawful, Plan, Sealing;
    assert buf == buf[..CHUNK] + buf[CHUNK..];
    Assoc(buf[..CHUNK], buf[CHUNK..], whole.plain[|sent|..]);
  }

  /** The pipe is at its end: what is left is the last chunk, or the producer's error ends the run.
      The consumer reads the pipe as it would any source, so `UnexpectedEof` may pass for the end. */
  lemma PipeEnd(c: Suite, key: Bytes, newKey: Bytes, whole: Opened, i: nat, p: Producer, sent: Bytes, left: Bytes, ending: Option<Error>,
                before: Bytes, data: Bytes, done: seq<Chunk>, buf: Bytes)
    requires p.Finished? && Producing(c, key, whole, i, p, sent, left, ending)
    requires Consuming(c, newKey, whole, before, data, done, Receiving, buf, sent) && |buf| <= CHUNK
    ensures p.err == whole.err
    ensures SealEnd(whole.plain, whole.err) == SeenEnd(|buf|, CHUNK, p.err)
    ensures SeenEnd(|buf|, CHUNK, p.err).None? ==> Consuming(c, newKey, whole, before, data, done, Writing(buf, true), [], sent)
    ensures SeenEnd(|buf|, CHUNK, p.err).Some? ==> data == before + SealAll(c, newKey, Plan(0, whole.plain, whole.err))
  {
    hide Lawful, SealAll, Nonce;
    assert whole.plain[|sent|..] == [] && buf + [] == buf;
    if SeenEnd(|buf|, CHUNK, p.err).Some? {
      assert Plan(|done|, buf, p.err) == [];
      assert done + [] == done;
    }
  }

  /** A chunk is sealed and written, or the write fails. */
  lemma {:induction false} ChunkWritten(c: Suite, key: Bytes, whole: Opened, before: Bytes, data: Bytes, done: seq<Chunk>, k: Consumer, buf: Bytes, sent: Bytes, now: Bytes)
    requires k.Writing? && Consuming(c, key, whole, before, data, done, k, buf, sent)
    ensures var chunk, plan := Chunk(Nonce(|done|, k.last), k.chunk), Plan(0, whole.plain, whole.err);
            && (now == data + SealChunk(c, key, chunk) ==>
                  if k.last then SealEnd(whole.plain, whole.err).None? && now == before + SealAll(c, key, plan)
                  else Consuming(c, key, whole, before, now, done + [chunk], Receiving, buf, sent))
            && (WrotePart(data, now, SealChunk(c, key, chunk)) ==> WrotePart(before, now, SealAll(c, key, plan)))
  {
    hide Lawful, Plan, SealAll, SealEnd, Nonce, WrotePart, Sealing, SealChunk;
    var plan, rest := Plan(0, whole.plain, whole.err), buf + whole.plain[|sent|..];
    var chunk := SealStep(c, key, before, data, plan, done, k.chunk + rest, k.chunk, rest, whole.err, SealEnd(whole.plain, whole.err), now);
  }

  // ----- the whole machine

  /** Both goroutines' variables. */
  datatype Machine = Machine(
    producer: Producer,
    consumer: Consumer,
    keyBuffer: Bytes,   // the old payload key, until it is wiped
    buf: Bytes,         // received and not yet sealed
    openCounter: nat,
    sealCounter: nat)

  /** What stays fixed during a run, for stating the invariant. */
  datatype Job = Job(oldKey: Bytes, newKey: Bytes, whole: Opened, ending: Option<Error>, before: Bytes)

  function Output(c: Suite, j: Job): Bytes {
    SealAll(c, j.newKey, Plan(0, j.whole.plain, j.whole.err))
  }

  /** Progress of a run: bytes across the pipe, chunks sealed, chunks opened, unread ciphertext, output. */
  datatype Progress = Progress(sent: Bytes, done: seq<Chunk>, turn: nat, left: Bytes, data: Bytes, failed: bool)

  ghost predicate Invariant(c: Suite, j: Job, m: Machine, g: Progress) {
    && m.openCounter == Wrap64(g.turn) && m.sealCounter == Wrap64(|g.done|)
    && (m.consumer.Ended? ==> m.producer.Finished?)
    && (!m.consumer.Ended? ==> m.keyBuffer == j.oldKey)
    && if Running(m.consumer) then
         && !g.failed
         && Producing(c, j.oldKey, j.whole, g.turn, m.producer, g.sent, g.left, j.ending)
         && Consuming(c, j.newKey, j.whole, j.before, g.data, g.done, m.consumer, m.buf, g.sent)
       else if g.failed then
         m.consumer.err == Some(SinkError) && WrotePart(j.before, g.data, Output(c, j))
       else
         m.consumer.err == SealEnd(j.whole.plain, j.whole.err) && g.data == j.before + Output(c, j)
  }

  lemma Start(c: Suite, j: Job, left: Bytes)
    requires j.whole == OpenAll(c, j.oldKey, left, j.ending)
    ensures Invariant(c, j, Machine(Reading, Receiving, j.oldKey, [], 0, 0), Progress([], [], 0, left, j.before, false))
  {
    hide Lawful, Producing, Consuming, OpenAll, Plan, SealAll;
    StartPipeline(c, j.oldKey, j.newKey, left, j.ending, j.before);
  }

  lemma {:induction false} StepRead(c: Suite, j: Job, m: Machine, g: Progress, sealed: Bytes, rest: Bytes, p: Producer)
    requires Invariant(c, j, m, g) && m.producer.Reading?
    requires g.left == sealed + rest && |sealed| == Min(FULL, |g.left|)
    requires var one := OpenOne(c, j.oldKey, g.turn, sealed, |g.left| <= FULL, j.ending);
             p == if one.err.Some? then Closing(one.err) else Offering(one.plain, |g.left| <= FULL)
    ensures Invariant(c, j, m.(producer := p, openCounter := Wrap64(m.openCounter + 1)), g.(turn := g.turn + 1, left := rest))
  {
    hide Lawful, Producing, Consuming, OpenOne, Wrap64, WrotePart, Output, Nonce;
    Wrap64Next(g.turn);
    if Running(m.consumer) {
      ProducerRead(c, j.oldKey, j.whole, g.turn, g.sent, g.left, sealed, rest, j.ending);
    }
  }

  lemma StepTransfer(c: Suite, j: Job, m: Machine, g: Progress, moved: Bytes, kept: Bytes)
    requires Invariant(c, j, m, g) && m.producer.Offering? && m.consumer.Receiving? && m.producer.data == moved + kept
    ensures Invariant(c, j, m.(producer := AfterWrite(kept, m.producer.last), buf := m.buf + moved), g.(sent := g.sent + moved))
  {
    hide Lawful, Producing, Consuming, Wrap64, WrotePart, Output;
    Rendezvous(c, j.oldKey, j.newKey, j.whole, g.turn, m.producer, g.sent, g.left, j.ending, j.before, g.data, g.done, m.buf, moved, kept);
  }

  lemma StepAbandon(c: Suite, j: Job, m: Machine, g: Progress, e: Option<Error>)
    requires Invariant(c, j, m, g) && m.producer.Offering? && m.consumer.Joining?
    ensures Invariant(c, j, m.(producer := Closing(e)), g)
  {
    hide Lawful, Producing, Consuming, Wrap64, WrotePart, Output;
  }

  lemma StepClose(c: Suite, j: Job, m: Machine, g: Progress)
    requires Invariant(c, j, m, g) && m.producer.Closing?
    ensures Invariant(c, j, m.(producer := Finished(m.producer.err)), g)
  {
    hide Lawful, Consuming, Wrap64, WrotePart, Output, OpenFrom;
  }

  lemma StepCut(c: Suite, j: Job, m: Machine, g: Progress)
    requires Invariant(c, j, m, g) && m.consumer.Receiving? && |m.buf| > CHUNK
    ensures Invariant(c, j, m.(consumer := Writing(m.buf[..CHUNK], false), buf := m.buf[CHUNK..]), g)
  {
    hide Lawful, Producing, Consuming, Wrap64, WrotePart, Output;
    CutChunk(c, j.newKey, j.whole, j.before, g.data, g.done, m.buf, g.sent);
  }

  function AtPipeEnd(m: Machine): Machine
    requires m.producer.Finished?
  {
    if SeenEnd(|m.buf|, CHUNK, m.producer.err).Some? then m.(consumer := Returned(m.producer.err))
    else m.(consumer := Writing(m.buf, true), buf := [])
  }

  lemma StepEnd(c: Suite, j: Job, m: Machine, g: Progress)
    requires Invariant(c, j, m, g) && m.consumer.Receiving? && |m.buf| <= CHUNK && m.producer.Finished?
    ensures Invariant(c, j, AtPipeEnd(m), g)
  {
    hide Lawful, Producing, Consuming, Wrap64, WrotePart, Plan, SealAll;
    PipeEnd(c, j.oldKey, j.newKey, j.whole, g.turn, m.producer, g.sent, g.left, j.ending, j.before, g.data, g.done, m.buf);
  }

  function AfterChunk(m: Machine, ok: bool): Machine
    requires m.consumer.Writing?
  {
    if !ok then m.(consumer := Returned(Some(SinkError)))
    else if m.consumer.last then m.(consumer := Returned(None))
    else m.(consumer := Receiving, sealCounter := Wrap64(m.sealCounter + 1))
  }

  lemma StepWrite(c: Suite, j: Job, m: Machine, g: Progress, ok: bool, now: Bytes)
    requires Invariant(c, j, m, g) && m.consumer.Writing?
    requires var sealed := SealChunk(c, j.newKey, Chunk(Nonce(m.sealCounter, m.consumer.last), m.consumer.chunk));
             if ok then now == g.data + sealed else WrotePart(g.data, now, sealed)
    ensures var chunk := Chunk(Nonce(|g.done|, m.consumer.last), m.consumer.chunk);
            var g' := g.(data := now, failed := !ok, done := if ok && !m.consumer.last then g.done + [chunk] else g.done);
            Invariant(c, j, AfterChunk(m, ok), g')
  {
    hide Lawful, Producing, Consuming, Wrap64, WrotePart, SealAll, Plan, Nonce, SealChunk;
    NonceWraps(|g.done|, m.consumer.last);
    Wrap64Next(|g.done|);
    ChunkWritten(c, j.newKey, j.whole, j.before, g.data, g.done, m.consumer, m.buf, g.sent, now);
  }

  lemma StepReturn(c: Suite, j: Job, m: Machine, g: Progress)
    requires Invariant(c, j, m, g) && m.consumer.Returned?
    ensures Invariant(c, j, m.(consumer := Joining(m.consumer.err)), g)
  {
    hide Lawful, Wrap64, WrotePart, Output;
  }

  lemma StepJoin(c: Suite, j: Job, m: Machine, g: Progress)
    requires Invariant(c, j, m, g) && m.consumer.Joining? && m.producer.Finished?
    ensures Invariant(c, j, m.(consumer := Ended(m.consumer.err), keyBuffer := Zeros(KEY)), g)
  {
    hide Lawful, Wrap64, WrotePart, Output;
  }

  // ----- every interleaving

  /** Runs producer and consumer from the state Rewrap starts them in. The loop takes any step that
      is possible, so what is ensured holds of every schedule: it ends, no state is stuck, and the
      output and the error are those of sealing a source that delivers what the old payload opens to
      and ends as its opening does. The key is wiped last: until then the producer opens every chunk
      with the key it started with. */
  method RunPipeline(c: Suite, dst: Sink, br: BufReader, oldKey: Bytes, newKey: Bytes) returns (err: Option<Error>)
    requires !dst.failed && br.size > 0
    modifies dst, br, br.src
    ensures var o := OpenAll(c, oldKey, old(br.Contents()), br.src.ending);
            Delivered(old(dst.data), dst, SealAll(c, newKey, Plan(0, o.plain, o.err)), err, SealEnd(o.plain, o.err))
  {
    hide Lawful, Nonce, Wrap64, Invariant, OpenAll, OpenOne, Plan, SealAll, WrotePart, SealChunk;
    ghost var j := Job(oldKey, newKey, OpenAll(c, oldKey, br.Contents(), br.src.ending), br.src.ending, dst.data);
    var m := Machine(Reading, Receiving, oldKey, [], 0, 0);
    ghost var sent: Bytes, done: seq<Chunk>, turn: nat := [], [], 0;
    Start(c, j, br.Contents());
    while !m.consumer.Ended?
      invariant br.src.ending == j.ending
      invariant Invariant(c, j, m, Progress(sent, done, turn, br.Contents(), dst.data, dst.failed))
      decreases |br.Contents()|, m.producer.Rank(), m.producer.Pending(), |m.buf|, m.consumer.Rank()
    {
      ghost var g := Progress(sent, done, turn, br.Contents(), dst.data, dst.failed);
      InvariantFacts(c, j, m, g);
      if {
        case m.producer.Reading? =>
          var sealed, last, broken := ReadChunk(br, FULL);
          var p := OpenInto(c, m.keyBuffer, m.openCounter, sealed, last, broken, turn, j.ending);
          StepRead(c, j, m, g, sealed, br.Contents(), p);
          m, turn := m.(producer := p, openCounter := Wrap64(m.openCounter + 1)), turn + 1;

        case m.producer.Offering? && m.consumer.Receiving? && |m.buf| <= CHUNK =>
          var k := 0;
          if m.producer.data != [] {
            k :| 1 <= k <= |m.producer.data|;
          }
          var moved, kept := m.producer.data[..k], m.producer.data[k..];
          StepTransfer(c, j, m, g, moved, kept);
          m, sent := m.(producer := AfterWrite(kept, m.producer.last), buf := m.buf + moved), sent + moved;

        case m.producer.Offering? && m.consumer.Joining? =>
          StepAbandon(c, j, m, g, Some(SinkError));
          m := m.(producer := Closing(Some(SinkError)));

        case m.producer.Closing? =>
          StepClose(c, j, m, g);
          m := m.(producer := Finished(m.producer.err));

        case m.consumer.Receiving? && |m.buf| > CHUNK =>
          StepCut(c, j, m, g);
          m := m.(consumer := Writing(m.buf[..CHUNK], false), buf := m.buf[CHUNK..]);

        case m.consumer.Receiving? && |m.buf| <= CHUNK && m.producer.Finished? =>
          StepEnd(c, j, m, g);
          m := AtPipeEnd(m);

        case m.consumer.Writing? =>
          var sealed := SealChunk(c, newKey, Chunk(Nonce(m.sealCounter, m.consumer.last), m.consumer.chunk));
          var ok := dst.Write(sealed);
          StepWrite(c, j, m, g, ok, dst.data);
          if ok && !m.consumer.last {
            done := done + [Chunk(Nonce(|done|, m.consumer.last), m.consumer.chunk)];
          }
          m := AfterChunk(m, ok);

        case m.consumer.Returned? =>
          StepReturn(c, j, m, g);
          m := m.(consumer := Joining(m.consumer.err));

        case m.consumer.Joining? && m.producer.Finished? =>
          StepJoin(c, j, m, g);
          m := m.(consumer := Ended(m.consumer.err), keyBuffer := Zeros(KEY));
      }
    }
    InvariantFacts(c, j, m, Progress(sent, done, turn, br.Contents(), dst.data, dst.failed));
    err := m.consumer.err;
  }

  /** The parts of the invariant the loop itself looks at. */
  lemma InvariantFacts(c: Suite, j: Job, m: Machine, g: Progress)
    requires Invariant(c, j, m, g)
    ensures m.openCounter == Wrap64(g.turn) && (m.consumer.Ended? ==> m.producer.Finished?)
    ensures !m.consumer.Ended? ==> m.keyBuffer == j.oldKey
    ensures Running(m.consumer) ==> !g.failed
    ensures !Running(m.consumer) && g.failed ==> m.consumer.err == Some(SinkError) && WrotePart(j.before, g.data, Output(c, j))
    ensures !Running(m.consumer) && !g.failed ==> m.consumer.err == SealEnd(j.whole.plain, j.whole.err) && g.data == j.before + Output(c, j)
  {
    hide Lawful, Wrap64, WrotePart, Output, Producing, Consuming;
  }

  /** One turn of `openPayload` up to its pipe write. */
  method OpenInto(c: Suite, key: Bytes, counter: nat, sealed: Bytes, last: bool, broken: Option<Error>,
                  ghost i: nat, ghost ending: Option<Error>)
      returns (p: Producer)
    requires counter == Wrap64(i) && broken == if last then SeenEnd(|sealed|, FULL, ending) else None
    ensures var one := OpenOne(c, key, i, sealed, last, ending);
            p == if one.err.Some? then Closing(one.err) else Offering(one.plain, last)
    ensures p.Offering? ==> |sealed| >= TAG
  {
    hide Lawful, Nonce, Wrap64;
    if broken.Some? {
      return Closing(broken);
    }
    if |sealed| < TAG {
      return Closing(Some(PayloadCorrupted));
    }
    NonceWraps(i, last);
    var pt := Crypto.Open(c, key, Nonce(counter, last), sealed, []);
    if pt.None? {
      return Closing(Some(PayloadCorrupted));
    }
    return Offering(pt.value, last);
  }

  /** `Rewrap` with deep on. */
  method RewrapDeep(c: Suite, dst: Sink, src: Source, creds: Credentials, opts: SealOptions, drawn: FreshKey, coins: Coins)
      returns (err: Option<Error>)
    requires !dst.failed
    modifies dst, src
    ensures var w := DeepRewrap(c, old(src.rest), src.ending, creds, opts, drawn, coins);
            Delivered(old(dst.data), dst, w.bytes, err, w.err)
  {
    hide Lawful, Unlock, Validate, WrotePart, CanEncapsulate, FreshSlots, OpenAll, Plan, SealAll, Header.Print, Signed;
    ghost var before, ending := dst.data, src.ending;
    err := Validate(opts);
    if err.Some? {
      assert dst.data == dst.data + [];
      return;
    }
    var br := new BufReader(src, CHUNK + TAG);
    assert br.Contents() == src.rest;
    var unlocked := RunUnlock(c, br, creds);
    if unlocked.Err? {
      assert dst.data == dst.data + [];
      return Some(unlocked.error);
    }
    var u := unlocked.value;
    var oldKey := PayloadKey(c, u.key, u.nonce);
    ghost var o := OpenAll(c, oldKey, br.Contents(), ending);
    var kept: seq<Header.Slot> := [];
    err := WriteHeader(c, dst, drawn.key, drawn.nonce, kept, opts, coins);
    if !CanEncapsulate(c, drawn.key, drawn.nonce, opts, coins) {
      assert dst.data == dst.data + [];
      return;
    }
    ghost var slots := FreshSlots(c, drawn.key, drawn.nonce, opts, coins);
    assert kept + slots == slots;
    var newKey := PayloadKey(c, drawn.key, drawn.nonce);
    ghost var head, mid := Header.Print(Signed(c, drawn.key, drawn.nonce, slots)), dst.data;
    ghost var tail, end := SealAll(c, newKey, Plan(0, o.plain, o.err)), SealEnd(o.plain, o.err);
    if err.Some? {
      DeliveredPart(before, dst, head, tail, err, None, end);
      return;
    }
    err := RunPipeline(c, dst, br, oldKey, newKey);
    DeliveredThen(before, dst, mid, head, tail, err, end);
  }
}
