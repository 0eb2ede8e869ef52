/** The chunked payload: `setNonce`, `sealPayload` and `openPayload`. */
module Payload {
  import opened Prelude
  import opened Crypto
  import opened Streams

  const CHUNK := 64 * 1024
  const FULL := CHUNK + TAG
  const COUNTERS := 0x1_0000_0000_0000_0000  // a uint64 counter wraps here

  // ----- nonces

  /** Three zero bytes, the big-endian counter, the final-chunk flag. */
  function Nonce(counter: nat, last: bool): (n: Bytes)
    ensures |n| == 12
  {
    [0, 0, 0] + BigEndian(Wrap64(counter), 8) + [if last then 1 else 0]
  }

  lemma NonceFlag(counter: nat, last: bool)
    ensures Nonce(counter, last)[11] == if last then 1 else 0
  {
    hide BigEndian, Wrap64;
  }

  function Wrap64(n: nat): (r: nat)
    ensures r < COUNTERS
  {
    n % COUNTERS
  }

  lemma Wrap64Next(n: nat)
    ensures Wrap64(Wrap64(n) + 1) == Wrap64(n + 1)
  {
  }

  lemma NonceInjective(i: nat, last: bool, j: nat, last': bool)
    requires i < COUNTERS && j < COUNTERS && Nonce(i, last) == Nonce(j, last')
    ensures i == j && last == last'
  {
    assert Wrap64(i) == i && Wrap64(j) == j;
    hide Wrap64, BigEndian, FromBigEndian;
    NonceParts(BigEndian(Wrap64(i), 8), last, BigEndian(Wrap64(j), 8), last');
    Counter64Inverse(Wrap64(i));
    Counter64Inverse(Wrap64(j));
  }

  lemma Counter64Inverse(n: nat)
    requires n < COUNTERS
    ensures FromBigEndian(BigEndian(n, 8)) == n
  {
    Pow256Of8();
    BigEndianInverse(n, 8);
  }

  lemma NonceParts(a: Bytes, last: bool, b: Bytes, last': bool)
    requires |a| == |b| == 8
    requires [0, 0, 0] + a + [if last then 1 else 0] == [0, 0, 0] + b + [if last' then 1 else 0]
    ensures a == b && last == last'
  {
    var x, y := [0, 0, 0] + a + [if last then 1 else 0], [0, 0, 0] + b + [if last' then 1 else 0];
    assert x[3..11] == a && y[3..11] == b && x[11] == y[11];
  }

  lemma Pow256Of8()
    ensures Pow256(8) == COUNTERS
  {
    assert Pow256(4) == 0x1_0000_0000;
  }

  /** Writes a nonce over the one already in the buffer. */
  method SetNonce(nonce: array<Byte>, counter: nat, last: bool)
    requires nonce.Length == 12
    modifies nonce
    ensures nonce[..] == Nonce(counter, last)
  {
    for i := 0 to 3
      invariant forall k :: 0 <= k < i ==> nonce[k] == 0
    {
      nonce[i] := 0;
    }
    var be := BigEndian(Wrap64(counter), 8);
    for i := 0 to 8
      invariant nonce[0] == nonce[1] == nonce[2] == 0
      invariant forall k :: 0 <= k < i ==> nonce[3 + k] == be[k]
    {
      nonce[3 + i] := be[i];
    }
    nonce[11] := if last then 1 else 0;
    assert nonce[3..11] == be;
  }

  // ----- sealing

  /** One sealed chunk: its nonce and the plaintext under it. */
  datatype Chunk = Chunk(nonce: Bytes, plain: Bytes)

  /** The chunks sealed for plaintext s, the first numbered i. A source that is seen to break off
      with an error yields only the chunks known not to be the last. */
  function Plan(i: nat, s: Bytes, ending: Option<Error>): (plan: seq<Chunk>)
    decreases |s|
  {
    if |s| > CHUNK then [Chunk(Nonce(i, false), s[..CHUNK])] + Plan(i + 1, s[CHUNK..], ending)
    else if SeenEnd(|s|, CHUNK, ending).None? then [Chunk(Nonce(i, true), s)]
    else []
  }

  /** The error the sealing loop returns when no write fails. */
  function SealEnd(s: Bytes, ending: Option<Error>): Option<Error>
    decreases |s|
  {
    if |s| > CHUNK then SealEnd(s[CHUNK..], ending) else SeenEnd(|s|, CHUNK, ending)
  }

  function SealChunk(c: Suite, key: Bytes, chunk: Chunk): (x: Bytes)
    ensures |x| == |chunk.plain| + TAG
  {
    Seal(c, key, chunk.nonce, chunk.plain, [])
  }

  function SealAll(c: Suite, key: Bytes, plan: seq<Chunk>): Bytes {
    if plan == [] then [] else SealChunk(c, key, plan[0]) + SealAll(c, key, plan[1..])
  }

  /** The payload `sealPayload` writes for a plaintext read to its end. */
  function Sealed(c: Suite, key: Bytes, s: Bytes): Bytes {
    SealAll(c, key, Plan(0, s, None))
  }

  lemma {:induction false} SealAllAppend(c: Suite, key: Bytes, a: seq<Chunk>, b: seq<Chunk>)
    ensures SealAll(c, key, a + b) == SealAll(c, key, a) + SealAll(c, key, b)
  {
    if a == [] {
      assert a + b == b;
    } else {
      assert (a + b)[1..] == a[1..] + b;
      SealAllAppend(c, key, a[1..], b);
    }
  }

  function Nonces(plan: seq<Chunk>): seq<Bytes> {
    seq(|plan|, k requires 0 <= k < |plan| => plan[k].nonce)
  }

  /** The read both loops begin with: up to n bytes, whether they are the last ones, and the
      source's error if it is not taken for their end. */
  method ReadChunk(br: BufReader, n: nat) returns (buf: Bytes, last: bool, broken: Option<Error>)
    requires br.size > 0 && n > 0
    modifies br, br.src
    ensures old(br.Contents()) == buf + br.Contents() && |buf| == Min(n, |old(br.Contents())|)
    ensures last <==> |old(br.Contents())| <= n
    ensures broken == if last then SeenEnd(|buf|, n, br.src.ending) else None
  {
    var status;
    buf, status := br.ReadFull(n);
    last, broken := !status.Complete?, None;
    if status.Broken? {
      broken := Some(status.error);
    } else if !last {
      var peek := br.Peek();
      last := !peek.Complete?;
      if peek.Broken? {
        broken := Some(peek.error);
      }
    }
  }

  /** One turn of the sealing loop, the i-th: read, set the nonce, seal, write. */
  method SealTurn(c: Suite, dst: Sink, br: BufReader, key: Bytes, nonce: array<Byte>, counter: nat, ghost i: nat)
      returns (err: Option<Error>, last: bool, broken: bool, ghost buf: Bytes)
    requires !dst.failed && br.size > 0 && nonce.Length == 12 && counter == Wrap64(i)
    modifies dst, br, br.src, nonce
    ensures old(br.Contents()) == buf + br.Contents() && |buf| == Min(CHUNK, |old(br.Contents())|)
    ensures last <==> |old(br.Contents())| <= CHUNK
    ensures broken == (last && SeenEnd(|buf|, CHUNK, br.src.ending).Some?)
    ensures if broken
            then err == br.src.ending && !dst.failed && dst.data == old(dst.data)
            else Delivered(old(dst.data), dst, SealChunk(c, key, Chunk(Nonce(i, last), buf)), err, None)
                 && nonce[..] == Nonce(i, last)
  {
    hide Nonce, Wrap64;
    var read, error;
    read, last, error := ReadChunk(br, CHUNK);
    buf, broken := read, error.Some?;
    if broken {
      return error, last, broken, buf;
    }
    SetNonce(nonce, counter, last);
    NonceWraps(i, last);
    var sealed := Seal(c, key, nonce[..], read, []);
    var ok := dst.Write(sealed);
    err := if ok then None else Some(SinkError);
  }

  /** `nonces` lists the nonces the run passed to the cipher, in order. */
  method SealPayload(c: Suite, dst: Sink, src: Source, key: Bytes) returns (err: Option<Error>, ghost nonces: seq<Bytes>)
    requires !dst.failed
    modifies dst, src
    ensures var plan := Plan(0, old(src.rest), src.ending);
            Delivered(old(dst.data), dst, SealAll(c, key, plan), err, SealEnd(old(src.rest), src.ending))
    ensures !dst.failed ==> nonces == Nonces(Plan(0, old(src.rest), src.ending))
  {
    assert Wrap64(0) == 0;
    hide Nonce, Wrap64, Plan, SealAll, SealEnd, SeenEnd, WrotePart, Nonces, Sealing, Lawful;
    var br := new BufReader(src, CHUNK);
    ghost var before, done, plan, ending := dst.data, [], Plan(0, src.rest, src.ending), src.ending;
    ghost var end := SealEnd(src.rest, ending);
    assert br.Contents() == src.rest;
    SealNothing(c, key, before, src.rest, ending);
    nonces := [];
    var nonce := new Byte[12];
    var counter: nat := 0;
    while true
      invariant fresh(br) && fresh(nonce) && br.src == src && br.size == CHUNK
      invariant !dst.failed && counter == Wrap64(|done|)
      invariant Sealing(c, key, before, dst.data, plan, done, br.Contents(), ending, end)
      invariant nonces == Nonces(done)
      decreases |br.Contents()|
    {
      ghost var left, mid := br.Contents(), dst.data;
      var last, broken;
      ghost var buf;
      err, last, broken, buf := SealTurn(c, dst, br, key, nonce, counter, |done|);
      ghost var chunk := SealStep(c, key, before, mid, plan, done, left, buf, br.Contents(), ending, end, dst.data);
      if broken {
        return;
      }
      NoncesSnoc(done, chunk);
      nonces := nonces + [nonce[..]];
      if err.Some? || last {
        return;
      }
      Wrap64Next(|done|);
      done := done + [chunk];
      counter := Wrap64(counter + 1);
    }
  }

  /** Midway through a run: `data` is `before` and the sealed chunks of `done`; `left` is unread,
      and `end` is how the run will end. */
  ghost predicate Sealing(c: Suite, key: Bytes, before: Bytes, data: Bytes, plan: seq<Chunk>, done: seq<Chunk>, left: Bytes,
                          ending: Option<Error>, end: Option<Error>) {
    && plan == done + Plan(|done|, left, ending) && data == before + SealAll(c, key, done)
    && end == SealEnd(left, ending)
  }

  lemma NoncesSnoc(done: seq<Chunk>, chunk: Chunk)
    ensures Nonces(done + [chunk]) == Nonces(done) + [chunk.nonce]
  {
  }

  lemma SealNothing(c: Suite, key: Bytes, before: Bytes, s: Bytes, ending: Option<Error>)
    ensures Sealing(c, key, before, before, Plan(0, s, ending), [], s, ending, SealEnd(s, ending)) && Nonces([]) == []
  {
  }

  /** One turn of the sealing loop: where it leaves the run, whether it is the last one,
      and what a failed write of its chunk amounts to. */
  lemma SealStep(c: Suite, key: Bytes, before: Bytes, data: Bytes, plan: seq<Chunk>, done: seq<Chunk>, left: Bytes,
                 buf: Bytes, rest: Bytes, ending: Option<Error>, end: Option<Error>, now: Bytes)
      returns (chunk: Chunk)
    requires Sealing(c, key, before, data, plan, done, left, ending, end)
    requires left == buf + rest && |buf| == Min(CHUNK, |left|)
    ensures chunk == Chunk(Nonce(|done|, |left| <= CHUNK), buf)
    ensures |left| <= CHUNK ==> end == SeenEnd(|buf|, CHUNK, ending)
    ensures |left| <= CHUNK && end.Some? ==> plan == done && data == before + SealAll(c, key, plan)
    ensures |left| > CHUNK ==> Sealing(c, key, before, data + SealChunk(c, key, chunk), plan, done + [chunk], rest, ending, end)
    ensures |left| <= CHUNK && end.None? ==>
              plan == done + [chunk] && data + SealChunk(c, key, chunk) == before + SealAll(c, key, plan)
    ensures (|left| > CHUNK || end.None?) && WrotePart(data, now, SealChunk(c, key, chunk)) ==>
              WrotePart(before, now, SealAll(c, key, plan))
  {
    hide Nonce, Lawful, WrotePart;
    var last := |left| <= CHUNK;
    chunk := Chunk(Nonce(|done|, last), buf);
    if !last || end.None? {
      var after := if last then [] else Plan(|done| + 1, rest, ending);
      assert left[..|buf|] == buf && left[|buf|..] == rest;
      assert last ==> left == buf;
      assert Plan(|done|, left, ending) == [chunk] + after;
      Assoc(done, [chunk], after);
      SealAllAppend(c, key, done, [chunk]);
      SealAllSingle(c, key, chunk);
      SealAllAppend(c, key, done + [chunk], after);
      Assoc(before, SealAll(c, key, done), SealChunk(c, key, chunk));
      assert last ==> done + [chunk] + [] == done + [chunk];
      if WrotePart(data, now, SealChunk(c, key, chunk)) {
        WrotePartAfter(before, SealAll(c, key, done), now, SealChunk(c, key, chunk), SealAll(c, key, after));
      }
    } else {
      assert done + [] == done;
    }
  }

  lemma SealAllSingle(c: Suite, key: Bytes, x: Chunk)
    ensures SealAll(c, key, [x]) == SealChunk(c, key, x)
  {
  }

  lemma NonceWraps(i: nat, last: bool)
    ensures Nonce(Wrap64(i), last) == Nonce(i, last)
  {
    hide BigEndian;
    assert Wrap64(Wrap64(i)) == Wrap64(i);
  }

  // ----- opening

  /** The plaintext emitted from ciphertext s, and the error the run ends with. */
  datatype Opened = Opened(plain: Bytes, err: Option<Error>)

  function OpenFrom(c: Suite, key: Bytes, i: nat, s: Bytes, ending: Option<Error>): Opened
    decreases |s|
  {
    if |s| <= FULL then
      if SeenEnd(|s|, FULL, ending).Some? then Opened([], ending)
      else if |s| < TAG then Opened([], Some(PayloadCorrupted))
      else match Open(c, key, Nonce(i, true), s, [])
        case None => Opened([], Some(PayloadCorrupted))
        case Some(p) => Opened(p, None)
    else match Open(c, key, Nonce(i, false), s[..FULL], [])
      case None => Opened([], Some(PayloadCorrupted))
      case Some(p) =>
        var r := OpenFrom(c, key, i + 1, s[FULL..], ending);
        Opened(p + r.plain, r.err)
  }

  function OpenAll(c: Suite, key: Bytes, s: Bytes, ending: Option<Error>): Opened {
    OpenFrom(c, key, 0, s, ending)
  }

  /** One turn of the opening loop, the i-th: read, set the nonce, open, write. */
  method OpenTurn(c: Suite, dst: Sink, br: BufReader, key: Bytes, nonce: array<Byte>, counter: nat, ghost i: nat)
      returns (err: Option<Error>, last: bool, ghost sealed: Bytes)
    requires !dst.failed && br.size > 0 && nonce.Length == 12 && counter == Wrap64(i)
    modifies dst, br, br.src, nonce
    ensures old(br.Contents()) == sealed + br.Contents() && |sealed| == Min(FULL, |old(br.Contents())|)
    ensures last <==> |old(br.Contents())| <= FULL
    ensures var o := OpenOne(c, key, i, sealed, last, br.src.ending);
            Delivered(old(dst.data), dst, o.plain, err, o.err)
  {
    hide Nonce, Wrap64;
    var read, broken;
    read, last, broken := ReadChunk(br, FULL);
    sealed := read;
    assert dst.data == dst.data + [];
    if broken.Some? {
      return broken, last, sealed;
    }
    if |read| < TAG {
      return Some(PayloadCorrupted), last, sealed;
    }
    SetNonce(nonce, counter, last);
    NonceWraps(i, last);
    var pt := Open(c, key, nonce[..], read, []);
    if pt.None? {
      return Some(PayloadCorrupted), last, sealed;
    }
    var ok := dst.Write(pt.value);
    err := if ok then None else Some(SinkError);
  }

  method OpenPayload(c: Suite, dst: Sink, br: BufReader, key: Bytes) returns (err: Option<Error>)
    requires !dst.failed && br.size > 0
    modifies dst, br, br.src
    ensures var o := OpenAll(c, key, old(br.Contents()), br.src.ending);
            Delivered(old(dst.data), dst, o.plain, err, o.err)
    ensures err.None? ==> br.Contents() == []
  {
    assert Wrap64(0) == 0;
    hide Nonce, Wrap64, OpenFrom, OpenOne, WrotePart;
    ghost var before, sent, ending := dst.data, [], br.src.ending;
    ghost var done: nat := 0;
    ghost var whole := OpenAll(c, key, br.Contents(), ending);
    var nonce := new Byte[12];
    var counter: nat := 0;
    while true
      invariant fresh(nonce) && !dst.failed && counter == Wrap64(done)
      invariant whole == After(sent, OpenFrom(c, key, done, br.Contents(), ending))
      invariant dst.data == before + sent
      decreases |br.Contents()|
    {
      ghost var left := br.Contents();
      var last;
      ghost var sealed;
      err, last, sealed := OpenTurn(c, dst, br, key, nonce, counter, done);
      ghost var one, tail := OpenStep(c, key, done, left, sealed, br.Contents(), ending);
      AfterTwice(sent, one.plain, tail);
      if dst.failed {
        WrotePartAfter(before, sent, dst.data, one.plain, tail.plain);
        return;
      }
      Assoc(before, sent, one.plain);
      sent := sent + one.plain;
      if err.Some? || last {
        return;
      }
      Wrap64Next(done);
      done := done + 1;
      counter := Wrap64(counter + 1);
    }
  }

  function After(sent: Bytes, o: Opened): Opened {
    Opened(sent + o.plain, o.err)
  }

  lemma AfterTwice(a: Bytes, b: Bytes, o: Opened)
    ensures After(a, After(b, o)) == After(a + b, o)
  {
    Assoc(a, b, o.plain);
  }

  /** What one turn of the opening loop emits, and the error it ends the run with. */
  function OpenOne(c: Suite, key: Bytes, i: nat, sealed: Bytes, last: bool, ending: Option<Error>): Opened {
    if last && SeenEnd(|sealed|, FULL, ending).Some? then Opened([], ending)
    else if |sealed| < TAG then Opened([], Some(PayloadCorrupted))
    else match Open(c, key, Nonce(i, last), sealed, [])
      case None => Opened([], Some(PayloadCorrupted))
      case Some(p) => Opened(p, None)
  }

  lemma {:induction false} OpenStep(c: Suite, key: Bytes, i: nat, left: Bytes, sealed: Bytes, rest: Bytes, ending: Option<Error>)
      returns (one: Opened, tail: Opened)
    requires left == sealed + rest && |sealed| == Min(FULL, |left|)
    ensures one == OpenOne(c, key, i, sealed, |left| <= FULL, ending)
    ensures tail == if one.err.Some? || |left| <= FULL then Opened([], one.err) else OpenFrom(c, key, i + 1, rest, ending)
    ensures OpenFrom(c, key, i, left, ending) == After(one.plain, tail)
  {
    hide Nonce;
    one := OpenOne(c, key, i, sealed, |left| <= FULL, ending);
    tail := if one.err.Some? || |left| <= FULL then Opened([], one.err) else OpenFrom(c, key, i + 1, rest, ending);
    assert |left| > FULL ==> left[..FULL] == sealed && left[FULL..] == rest;
    assert |left| <= FULL ==> left == sealed;
    assert one.plain + [] == one.plain;
  }
}
