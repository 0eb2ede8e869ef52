/** What the chunked payload guarantees: the exact accepted language, nonce discipline,
    the authenticated-prefix property, and the size shortcut. */
module PayloadTheorems {
  import opened Prelude
  import opened Crypto
  import opened Streams
  import opened Payload

  // ----- the shape of a plan

  /** How many chunks n plaintext bytes take: one, or enough that none is over CHUNK long. */
  function ChunkCount(n: nat): (k: nat)
    ensures k >= 1 && (k - 1) * CHUNK <= n <= k * CHUNK
    ensures n > 0 ==> (k - 1) * CHUNK < n
  {
    if n <= CHUNK then 1 else 1 + ChunkCount(n - CHUNK)
  }

  /** The k-th piece of s when it is cut every CHUNK bytes. */
  function Piece(s: Bytes, k: nat): Bytes
    requires k * CHUNK <= |s|
  {
    s[k * CHUNK..Min((k + 1) * CHUNK, |s|)]
  }

  lemma PieceOfTail(s: Bytes, k: nat)
    requires (k + 1) * CHUNK <= |s|
    ensures Piece(s[CHUNK..], k) == Piece(s, k + 1)
  {
  }

  /** Every chunk of a complete run: how many there are, the nonce each one is sealed under,
      the slice of plaintext it carries, and that the final flag is on exactly the last. */
  lemma {:induction false} PlanShape(i: nat, s: Bytes)
    ensures var plan := Plan(i, s, None);
            && |plan| == ChunkCount(|s|)
            && (forall k :: 0 <= k < |plan| ==> plan[k] == Chunk(Nonce(i + k, k == |plan| - 1), Piece(s, k)))
    decreases |s|
  {
    hide Nonce, Piece;
    if |s| > CHUNK {
      PlanShape(i + 1, s[CHUNK..]);
      var plan, tail := Plan(i, s, None), Plan(i + 1, s[CHUNK..], None);
      assert plan == [Chunk(Nonce(i, false), s[..CHUNK])] + tail;
      PieceZero(s);
      forall k | 1 <= k < |plan|
        ensures plan[k] == Chunk(Nonce(i + k, k == |plan| - 1), Piece(s, k))
      {
        var j := k - 1;
        assert plan[k] == tail[j] && i + 1 + j == i + k;
        PieceOfTail(s, j);
      }
    } else {
      PieceZero(s);
    }
  }

  lemma PieceZero(s: Bytes)
    ensures Piece(s, 0) == if |s| > CHUNK then s[..CHUNK] else s
  {
  }

  ghost predicate AllDistinct(ns: seq<Bytes>) {
    forall j, k :: 0 <= j < k < |ns| ==> ns[j] != ns[k]
  }

  /** One nonce per chunk, the final flag on exactly the last; and no nonce is used twice,
      up to the point where the uint64 counter comes round again: the one chunk after 2^64
      is still told apart by its final flag, the next one is not. */
  lemma NonceDiscipline(s: Bytes)
    ensures var ns := Nonces(Plan(0, s, None));
            && |ns| == ChunkCount(|s|)
            && (forall k :: 0 <= k < |ns| ==> |ns[k]| == 12 && (ns[k][11] == 1 <==> k == |ns| - 1))
            && (AllDistinct(ns) <==> ChunkCount(|s|) <= COUNTERS + 1)
  {
    hide Nonce, Plan;
    PlanShape(0, s);
    var plan := Plan(0, s, None);
    var ns, n := Nonces(plan), |plan|;
    assert forall k :: 0 <= k < n ==> ns[k] == Nonce(k, k == n - 1);
    forall k | 0 <= k < n ensures ns[k][11] == 1 <==> k == n - 1 {
      NonceFlag(k, k == n - 1);
    }
    if n <= COUNTERS + 1 {
      forall j, k | 0 <= j < k < n
        ensures ns[j] != ns[k]
      {
        if k == COUNTERS {
          assert ns[k][11] == 1 && ns[j][11] != 1;
        } else if ns[j] == ns[k] {
          NonceInjective(j, j == n - 1, k, k == n - 1);
        }
      }
    } else {
      NonceWraps(COUNTERS, false);
      assert ns[0] == ns[COUNTERS];
    }
  }

  // ----- sources that break off

  /** Whether bytes s of a source that then breaks off with e pass for all there is, in a loop that
      reads n at a time. */
  predicate PassesForEnd(s: Bytes, n: nat, e: Error)
    requires n > 0
  {
    e == UnexpectedEof && (s == [] || |s| % n != 0)
  }

  /** After a full read that was not the last, what is left passes for the end as before. */
  lemma StillPasses(s: Bytes, n: nat, e: Error)
    requires n < |s| && (n == CHUNK || n == FULL)
    ensures PassesForEnd(s[n..], n, e) <==> PassesForEnd(s, n, e)
  {
    OneChunkLess(|s|);
    OneFullChunkLess(|s|);
  }

  lemma OneChunkLess(n: int)
    ensures (n - CHUNK) % CHUNK == n % CHUNK
  {
  }

  lemma OneFullChunkLess(n: int)
    ensures (n - FULL) % FULL == n % FULL
  {
  }

  /** Short reads that end in `UnexpectedEof` are complete runs. */
  lemma {:induction false} BrokenSourceComplete(i: nat, s: Bytes, e: Error)
    requires PassesForEnd(s, CHUNK, e)
    ensures Plan(i, s, Some(e)) == Plan(i, s, None) && SealEnd(s, Some(e)) == None
    decreases |s|
  {
    hide Nonce;
    if |s| > CHUNK {
      StillPasses(s, CHUNK, e);
      BrokenSourceComplete(i + 1, s[CHUNK..], e);
    }
  }

  /** Any other broken source yields full, non-final chunks of what was read, and its error. */
  lemma {:induction false} BrokenSourceNeverFinal(i: nat, s: Bytes, e: Error)
    requires !PassesForEnd(s, CHUNK, e)
    ensures SealEnd(s, Some(e)) == Some(e)
    ensures var plan := Plan(i, s, Some(e));
            && (forall k :: 0 <= k < |plan| ==> plan[k].nonce == Nonce(i + k, false) && |plan[k].plain| == CHUNK)
            && PlainOf(plan) <= s
    decreases |s|
  {
    hide Nonce, PassesForEnd, Plan;
    if |s| > CHUNK {
      StillPasses(s, CHUNK, e);
      BrokenSourceNeverFinal(i + 1, s[CHUNK..], e);
      NeverFinalCons(i, s, e);
    } else {
      NothingPlanned(i, s, e);
    }
  }

  lemma NothingPlanned(i: nat, s: Bytes, e: Error)
    requires |s| <= CHUNK && !PassesForEnd(s, CHUNK, e)
    ensures Plan(i, s, Some(e)) == [] && SealEnd(s, Some(e)) == Some(e)
  {
  }

  lemma NeverFinalCons(i: nat, s: Bytes, e: Error)
    requires |s| > CHUNK
    requires var tail := Plan(i + 1, s[CHUNK..], Some(e));
             && (forall k :: 0 <= k < |tail| ==> tail[k].nonce == Nonce(i + 1 + k, false) && |tail[k].plain| == CHUNK)
             && PlainOf(tail) <= s[CHUNK..]
    ensures var plan := Plan(i, s, Some(e));
            && (forall k :: 0 <= k < |plan| ==> plan[k].nonce == Nonce(i + k, false) && |plan[k].plain| == CHUNK)
            && PlainOf(plan) <= s
  {
    hide Nonce;
    var plan, tail := Plan(i, s, Some(e)), Plan(i + 1, s[CHUNK..], Some(e));
    assert plan == [plan[0]] + tail && plan[1..] == tail;
    forall k | 0 <= k < |plan|
      ensures plan[k].nonce == Nonce(i + k, false) && |plan[k].plain| == CHUNK
    {
      if k > 0 {
        var j := k - 1;
        assert plan[k] == tail[j] && i + 1 + j == i + k;
      }
    }
    assert s == s[..CHUNK] + s[CHUNK..];
  }

  ghost predicate HasFinal(plan: seq<Chunk>) {
    exists k :: 0 <= k < |plan| && |plan[k].nonce| == 12 && plan[k].nonce[11] == 1
  }

  /** When a run over a source that breaks off writes a final chunk: exactly when the error is
      `UnexpectedEof` and the input is empty or does not end on a chunk boundary. Then it writes the
      complete sealing of what was read and reports success; otherwise it reports the error. */
  lemma BrokenSourceFinalIff(s: Bytes, e: Error)
    ensures var plan := Plan(0, s, Some(e));
            && (forall k :: 0 <= k < |plan| ==> |plan[k].nonce| == 12)
            && (HasFinal(plan) <==> PassesForEnd(s, CHUNK, e))
            && (HasFinal(plan) ==> plan == Plan(0, s, None))
            && SealEnd(s, Some(e)) == if HasFinal(plan) then None else Some(e)
  {
    hide Nonce, Plan, SealEnd;
    var plan := Plan(0, s, Some(e));
    if PassesForEnd(s, CHUNK, e) {
      BrokenSourceComplete(0, s, e);
      PlanShape(0, s);
      NonceFlag(|plan| - 1, true);
      assert plan[|plan| - 1].nonce[11] == 1;
    } else {
      BrokenSourceNeverFinal(0, s, e);
      forall k | 0 <= k < |plan|
        ensures plan[k].nonce[11] != 1
      {
        NonceFlag(k, false);
      }
    }
  }

  /** The shortest such inputs: after no byte or one, a source cut off with `UnexpectedEof` is sealed
      as if it were complete. */
  lemma CutOffSourceSealed()
    ensures Plan(0, [], Some(UnexpectedEof)) == [Chunk(Nonce(0, true), [])] && SealEnd([], Some(UnexpectedEof)) == None
    ensures Plan(0, [7], Some(UnexpectedEof)) == [Chunk(Nonce(0, true), [7])] && SealEnd([7], Some(UnexpectedEof)) == None
  {
    hide Nonce;
  }

  lemma {:induction false} CompleteSourceEnds(s: Bytes)
    ensures SealEnd(s, None) == None
    decreases |s|
  {
    if |s| > CHUNK {
      CompleteSourceEnds(s[CHUNK..]);
    }
  }

  /** The plaintext of a list of chunks. */
  function PlainOf(plan: seq<Chunk>): Bytes {
    if plan == [] then [] else plan[0].plain + PlainOf(plan[1..])
  }

  lemma {:induction false} PlanCarriesPlaintext(i: nat, s: Bytes)
    ensures PlainOf(Plan(i, s, None)) == s
    decreases |s|
  {
    var plan := Plan(i, s, None);
    if |s| > CHUNK {
      PlanCarriesPlaintext(i + 1, s[CHUNK..]);
      assert plan[1..] == Plan(i + 1, s[CHUNK..], None);
      assert s == s[..CHUNK] + s[CHUNK..];
    } else {
      assert plan[1..] == [];
      assert plan[0].plain + PlainOf([]) == s;
    }
  }

  // ----- the exact language `openPayload` accepts

  /** The one accepted form `sealPayload` never writes: m full chunks, none of them final,
      and then a sealed empty final chunk. */
  function FullThenEmpty(c: Suite, key: Bytes, i: nat, p: Bytes, m: nat): Bytes
    requires |p| == m * CHUNK
    decreases m
  {
    if m == 0 then Seal(c, key, Nonce(i, true), [], [])
    else Seal(c, key, Nonce(i, false), p[..CHUNK], []) + FullThenEmpty(c, key, i + 1, p[CHUNK..], m - 1)
  }

  ghost predicate Encodes(c: Suite, key: Bytes, i: nat, s: Bytes, p: Bytes) {
    || s == SealAll(c, key, Plan(i, p, None))
    || exists m: nat :: m > 0 && |p| == m * CHUNK && s == FullThenEmpty(c, key, i, p, m)
  }

  lemma SealAllCons(c: Suite, key: Bytes, i: nat, p: Bytes)
    requires |p| > CHUNK
    ensures SealAll(c, key, Plan(i, p, None))
         == Seal(c, key, Nonce(i, false), p[..CHUNK], []) + SealAll(c, key, Plan(i + 1, p[CHUNK..], None))
  {
    var plan := Plan(i, p, None);
    assert plan[1..] == Plan(i + 1, p[CHUNK..], None);
  }

  lemma {:induction false} SealedOpens(c: Suite, key: Bytes, i: nat, p: Bytes)
    ensures OpenFrom(c, key, i, SealAll(c, key, Plan(i, p, None)), None) == Opened(p, None)
    decreases |p|
  {
    if |p| > CHUNK {
      var head, rest := Seal(c, key, Nonce(i, false), p[..CHUNK], []), SealAll(c, key, Plan(i + 1, p[CHUNK..], None));
      SealAllCons(c, key, i, p);
      SealedLength(c, key, i + 1, p[CHUNK..]);
      OpenSealed(c, key, Nonce(i, false), p[..CHUNK], []);
      SealedOpens(c, key, i + 1, p[CHUNK..]);
      OpenFirstFull(c, key, i, head, rest);
      assert p == p[..CHUNK] + p[CHUNK..];
    } else {
      SealAllSingle(c, key, Chunk(Nonce(i, true), p));
      OpenSealed(c, key, Nonce(i, true), p, []);
    }
  }

  lemma {:induction false} FullThenEmptyOpens(c: Suite, key: Bytes, i: nat, p: Bytes, m: nat)
    requires |p| == m * CHUNK
    ensures OpenFrom(c, key, i, FullThenEmpty(c, key, i, p, m), None) == Opened(p, None)
    decreases m
  {
    hide Nonce, Lawful;
    if m > 0 {
      var head, rest := Seal(c, key, Nonce(i, false), p[..CHUNK], []), FullThenEmpty(c, key, i + 1, p[CHUNK..], m - 1);
      OpenSealed(c, key, Nonce(i, false), p[..CHUNK], []);
      FullThenEmptyOpens(c, key, i + 1, p[CHUNK..], m - 1);
      FullThenEmptyLength(c, key, i + 1, p[CHUNK..], m - 1);
      OpenFirstFull(c, key, i, head, rest);
      assert p == p[..CHUNK] + p[CHUNK..];
    } else {
      OpenSealed(c, key, Nonce(i, true), [], []);
    }
  }

  /** Opening `head + rest` when head is one sealed non-final chunk. */
  lemma OpenFirstFull(c: Suite, key: Bytes, i: nat, head: Bytes, rest: Bytes)
    requires |head| == FULL && rest != []
    requires Open(c, key, Nonce(i, false), head, []).Some?
    ensures var r := OpenFrom(c, key, i + 1, rest, None);
            OpenFrom(c, key, i, head + rest, None)
            == Opened(Open(c, key, Nonce(i, false), head, []).value + r.plain, r.err)
  {
    assert (head + rest)[..FULL] == head && (head + rest)[FULL..] == rest;
  }

  /** Putting one full non-final chunk in front of an encoding gives an encoding. */
  lemma EncodesCons(c: Suite, key: Bytes, i: nat, q: Bytes, rest: Bytes, p: Bytes)
    requires |q| == CHUNK && Encodes(c, key, i + 1, rest, p)
    ensures Encodes(c, key, i, Seal(c, key, Nonce(i, false), q, []) + rest, q + p)
  {
    hide Nonce;
    assert (q + p)[..CHUNK] == q && (q + p)[CHUNK..] == p;
    if rest == SealAll(c, key, Plan(i + 1, p, None)) {
      if p == [] {
        SealAllSingle(c, key, Chunk(Nonce(i + 1, true), []));
        assert rest == FullThenEmpty(c, key, i + 1, p, 0);
        assert Seal(c, key, Nonce(i, false), q, []) + rest == FullThenEmpty(c, key, i, q + p, 1);
      } else {
        SealAllCons(c, key, i, q + p);
      }
    } else {
      var m: nat :| m > 0 && |p| == m * CHUNK && rest == FullThenEmpty(c, key, i + 1, p, m);
      assert Seal(c, key, Nonce(i, false), q, []) + rest == FullThenEmpty(c, key, i, q + p, m + 1);
    }
  }

  lemma {:induction false} AcceptedEncodes(c: Suite, key: Bytes, i: nat, s: Bytes)
    requires OpenFrom(c, key, i, s, None).err.None?
    ensures Encodes(c, key, i, s, OpenFrom(c, key, i, s, None).plain)
    decreases |s|
  {
    var o := OpenFrom(c, key, i, s, None);
    if |s| <= FULL {
      SealAllSingle(c, key, Chunk(Nonce(i, true), o.plain));
    } else {
      var q, r := Open(c, key, Nonce(i, false), s[..FULL], []).value, OpenFrom(c, key, i + 1, s[FULL..], None);
      AcceptedEncodes(c, key, i + 1, s[FULL..]);
      EncodesCons(c, key, i, q, s[FULL..], r.plain);
      assert s == s[..FULL] + s[FULL..];
    }
  }

  lemma EncodedOpens(c: Suite, key: Bytes, i: nat, s: Bytes, p: Bytes)
    requires Encodes(c, key, i, s, p)
    ensures OpenFrom(c, key, i, s, None) == Opened(p, None)
  {
    if s == SealAll(c, key, Plan(i, p, None)) {
      SealedOpens(c, key, i, p);
    } else {
      var m: nat :| m > 0 && |p| == m * CHUNK && s == FullThenEmpty(c, key, i, p, m);
      FullThenEmptyOpens(c, key, i, p, m);
    }
  }

  /** For every key and byte string, opening succeeds with plaintext p exactly when the string
      is what sealing p writes, or p is m > 0 full chunks and an empty final chunk follows them. */
  lemma ExactLanguage(c: Suite, key: Bytes, s: Bytes, p: Bytes)
    ensures OpenAll(c, key, s, None) == Opened(p, None) <==> Encodes(c, key, 0, s, p)
  {
    if Encodes(c, key, 0, s, p) {
      EncodedOpens(c, key, 0, s, p);
    }
    if OpenAll(c, key, s, None) == Opened(p, None) {
      AcceptedEncodes(c, key, 0, s);
    }
  }

  /** A payload that does not open is reported as corrupted, whatever is wrong with it. */
  lemma {:induction false} OpenFailsCorrupted(c: Suite, key: Bytes, i: nat, s: Bytes)
    ensures OpenFrom(c, key, i, s, None).err in {None, Some(PayloadCorrupted)}
    decreases |s|
  {
    hide Nonce;
    if |s| > FULL {
      OpenFailsCorrupted(c, key, i + 1, s[FULL..]);
    }
  }

  /** Opening a source that breaks off is opening one that ends, when what was read passes for the
      end, and fails otherwise. */
  lemma {:induction false} BrokenSourceOpens(c: Suite, key: Bytes, i: nat, s: Bytes, e: Error)
    ensures PassesForEnd(s, FULL, e) ==> OpenFrom(c, key, i, s, Some(e)) == OpenFrom(c, key, i, s, None)
    ensures !PassesForEnd(s, FULL, e) ==> OpenFrom(c, key, i, s, Some(e)).err.Some?
    decreases |s|
  {
    hide Nonce;
    if |s| > FULL {
      StillPasses(s, FULL, e);
      BrokenSourceOpens(c, key, i + 1, s[FULL..], e);
    }
  }

  /** The accepted language of a source that breaks off with e: nothing, unless e is `UnexpectedEof`;
      then the encodings that do not end on a chunk boundary. */
  lemma BrokenSourceLanguage(c: Suite, key: Bytes, s: Bytes, p: Bytes, e: Error)
    ensures OpenAll(c, key, s, Some(e)) == Opened(p, None) <==> Encodes(c, key, 0, s, p) && e == UnexpectedEof && |s| % FULL != 0
  {
    hide Encodes, OpenFrom;
    BrokenSourceOpens(c, key, 0, s, e);
    ExactLanguage(c, key, s, p);
    if OpenAll(c, key, s, None).err.None? {
      AcceptedLength(c, key, s);
    }
  }

  /** The two forms really differ, so an accepted payload does not determine its bytes. */
  lemma EncodingNotUnique(c: Suite, key: Bytes, p: Bytes, m: nat)
    requires m > 0 && |p| == m * CHUNK
    ensures Sealed(c, key, p) != FullThenEmpty(c, key, 0, p, m)
    ensures OpenAll(c, key, Sealed(c, key, p), None) == OpenAll(c, key, FullThenEmpty(c, key, 0, p, m), None)
  {
    hide Nonce, SealAll, Plan, OpenFrom, FullThenEmpty;
    SealedOpens(c, key, 0, p);
    FullThenEmptyOpens(c, key, 0, p, m);
    ChunkCountIs(|p|, m - 1);
    SealedLength(c, key, 0, p);
    FullThenEmptyLength(c, key, 0, p, m);
  }

  // ----- sizes

  lemma {:induction false} SealedLength(c: Suite, key: Bytes, i: nat, p: Bytes)
    ensures |SealAll(c, key, Plan(i, p, None))| == |p| + TAG * ChunkCount(|p|)
    decreases |p|
  {
    hide Nonce;
    if |p| > CHUNK {
      SealedLength(c, key, i + 1, p[CHUNK..]);
      SealAllCons(c, key, i, p);
    } else {
      SealAllSingle(c, key, Chunk(Nonce(i, true), p));
    }
  }

  lemma {:induction false} FullThenEmptyLength(c: Suite, key: Bytes, i: nat, p: Bytes, m: nat)
    requires |p| == m * CHUNK
    ensures |FullThenEmpty(c, key, i, p, m)| == m * FULL + TAG
    decreases m
  {
    hide Nonce, Lawful;
    if m > 0 {
      FullThenEmptyLength(c, key, i + 1, p[CHUNK..], m - 1);
    }
  }

  const MAX_INT64 := 0x7fff_ffff_ffff_ffff

  /** The value a Go int64 holds after arithmetic with exact result x. */
  function Int64(x: int): int {
    (x + 0x8000_0000_0000_0000) % COUNTERS - 0x8000_0000_0000_0000
  }

  /** Go's integer division, which truncates towards zero. */
  function Quotient(a: int, b: int): int
    requires b > 0
  {
    if a >= 0 then a / b else -(-a / b)
  }

  function PlaintextSize(payloadLen: int): int {
    if payloadLen < TAG then -1
    else
      var chunks := Quotient(Int64(payloadLen + FULL - 1), FULL);
      var last := Int64(payloadLen - Int64((chunks - 1) * FULL));
      if last < TAG then -1 else Int64(payloadLen - Int64(chunks * TAG))
  }

  /** Some payload of n bytes opens under the key. */
  ghost predicate SomePayload(c: Suite, key: Bytes, n: int) {
    exists s: Bytes :: |s| == n && OpenAll(c, key, s, None).err.None?
  }

  /** What the documentation promises of PlaintextSize at n. */
  ghost predicate SizeRight(c: Suite, key: Bytes, n: int) {
    && (PlaintextSize(n) >= 0 <==> SomePayload(c, key, n))
    && (PlaintextSize(n) < 0 ==> PlaintextSize(n) == -1)
    && (forall s: Bytes :: |s| == n && OpenAll(c, key, s, None).err.None? ==>
          |OpenAll(c, key, s, None).plain| == PlaintextSize(n))
  }

  /** Length of the last chunk, tag included, of a payload of n > 0 bytes. */
  function LastChunk(n: int): int {
    (n - 1) % FULL + 1
  }

  /** Plaintext length of a payload of n bytes when its last chunk is long enough. */
  function PlainLength(n: int): int {
    n - TAG * ((n - 1) / FULL + 1)
  }

  lemma AcceptedLength(c: Suite, key: Bytes, s: Bytes)
    requires OpenAll(c, key, s, None).err.None?
    ensures LastChunk(|s|) >= TAG && |s| >= TAG
    ensures |OpenAll(c, key, s, None).plain| == PlainLength(|s|)
  {
    AcceptedEncodes(c, key, 0, s);
    EncodedLength(c, key, 0, s, OpenAll(c, key, s, None).plain);
  }

  lemma EncodedLength(c: Suite, key: Bytes, i: nat, s: Bytes, p: Bytes)
    requires Encodes(c, key, i, s, p)
    ensures |s| >= TAG && LastChunk(|s|) >= TAG && |p| == PlainLength(|s|)
  {
    hide Nonce, SealAll, Plan, FullThenEmpty, LastChunk, PlainLength;
    if s == SealAll(c, key, Plan(i, p, None)) {
      SealedLength(c, key, i, p);
      var k := ChunkCount(|p|);
      PlainLengthIs(|s|, k - 1, |p| - (k - 1) * CHUNK + TAG);
    } else {
      var m: nat :| m > 0 && |p| == m * CHUNK && s == FullThenEmpty(c, key, i, p, m);
      FullThenEmptyLength(c, key, i, p, m);
      PlainLengthIs(|s|, m, TAG);
    }
  }

  lemma PlainLengthIs(n: int, full: int, last: int)
    requires n == full * FULL + last && 0 < last <= FULL
    ensures LastChunk(n) == last && PlainLength(n) == n - TAG * (full + 1)
  {
    LengthSplit(n, full, last);
  }

  lemma LengthSplit(n: int, full: int, last: int)
    requires n == full * FULL + last && 0 < last <= FULL
    ensures (n - 1) / FULL == full && LastChunk(n) == last
  {
  }

  lemma ChunkCountIs(n: nat, full: nat)
    requires full * CHUNK < n <= (full + 1) * CHUNK || n == full == 0
    ensures ChunkCount(n) == full + 1
  {
  }

  lemma WitnessOfLength(c: Suite, key: Bytes, n: nat, full: nat, last: nat) returns (s: Bytes)
    requires n == full * FULL + last && TAG <= last <= FULL
    ensures |s| == n && OpenAll(c, key, s, None).err.None?
  {
    hide Nonce, SealAll, Plan, OpenFrom, FullThenEmpty, ChunkCount, Lawful;
    var size := full * CHUNK + (last - TAG);
    var p: Bytes := Zeros(size);
    if last == TAG && full > 0 {
      s := FullThenEmpty(c, key, 0, p, full);
      FullThenEmptyLength(c, key, 0, p, full);
      FullThenEmptyOpens(c, key, 0, p, full);
    } else {
      s := Sealed(c, key, p);
      ChunkCountIs(size, full);
      assert ChunkCount(size) == full + 1;
      SealedLength(c, key, 0, p);
      SealedOpens(c, key, 0, p);
    }
  }

  /** The code's int64 arithmetic below the overflow margin. */
  lemma {:induction false} PlaintextSizeBelow(n: int, full: int, last: int)
    requires TAG <= n <= MAX_INT64 - FULL + 1
    requires n == full * FULL + last && 0 < last <= FULL
    ensures PlaintextSize(n) == if last < TAG then -1 else n - TAG * (full + 1)
  {
    LengthSplit(n + FULL, full + 1, last);
    assert Quotient(n + FULL - 1, FULL) == full + 1;
    InRange(n + FULL - 1);
    InRange(full * FULL);
    InRange(n - full * FULL);
    InRange((full + 1) * TAG);
    InRange(n - (full + 1) * TAG);
  }

  lemma InRange(x: int)
    requires -MAX_INT64 - 1 <= x <= MAX_INT64
    ensures Int64(x) == x
  {
  }

  /** Above the margin the sum wraps to a negative number and the result is always -1. */
  lemma PlaintextSizeAbove(n: int)
    requires MAX_INT64 - FULL + 1 < n <= MAX_INT64
    ensures PlaintextSize(n) == -1
  {
    var sum := n + FULL - 1 - COUNTERS;
    WrapTo(n + FULL - 1, sum);
    var q := -sum / FULL;
    assert Quotient(sum, FULL) == -q && -sum < (q + 1) * FULL <= -sum + FULL;
    var y := (-q - 1) * FULL;
    assert -8 <= n - y - COUNTERS + FULL && n - y - COUNTERS <= 1;
    WrapTo(n - y, n - y - COUNTERS);
    if y < -MAX_INT64 - 1 {
      WrapTo(y, y + COUNTERS);
      InRange(n - y - COUNTERS);
    } else {
      InRange(y);
    }
  }

  lemma WrapTo(x: int, r: int)
    requires -MAX_INT64 - 1 <= r <= MAX_INT64 && (x == r || x == r + COUNTERS || x == r - COUNTERS)
    ensures Int64(x) == r
  {
  }

  /** PlaintextSize keeps its promise at n exactly when n plus a chunk does not overflow an
      int64, or no payload has that length anyway. */
  lemma SizeShortcut(c: Suite, key: Bytes, n: int)
    requires n <= MAX_INT64
    ensures SizeRight(c, key, n) <==> n <= MAX_INT64 - FULL + 1 || LastChunk(n) < TAG
  {
    if n < TAG {
      forall s: Bytes | |s| == n && OpenAll(c, key, s, None).err.None? ensures false {
        AcceptedLength(c, key, s);
      }
    } else {
      var full, last := (n - 1) / FULL, LastChunk(n);
      if n <= MAX_INT64 - FULL + 1 {
        PlaintextSizeBelow(n, full, last);
      } else {
        PlaintextSizeAbove(n);
      }
      forall s: Bytes | |s| == n && OpenAll(c, key, s, None).err.None?
        ensures last >= TAG && |OpenAll(c, key, s, None).plain| == PlainLength(n)
      {
        AcceptedLength(c, key, s);
      }
      if last >= TAG {
        var s := WitnessOfLength(c, key, n, full, last);
        assert SomePayload(c, key, n);
      }
    }
  }

  // ----- tampering

  /** Nothing in s opens under the key and a nonce the reader may try, except chunks the honest run
      sealed. */
  ghost predicate NoForgery(c: Suite, key: Bytes, plan: seq<Chunk>, s: Bytes) {
    forall lo, hi, i: nat, last :: 0 <= lo <= hi <= |s| && Open(c, key, Nonce(i, last), s[lo..hi], []).Some? ==>
      Chunk(Nonce(i, last), Open(c, key, Nonce(i, last), s[lo..hi], []).value) in plan
  }

  lemma NoForgeryDrop(c: Suite, key: Bytes, plan: seq<Chunk>, s: Bytes, k: nat)
    requires NoForgery(c, key, plan, s) && k <= |s|
    ensures NoForgery(c, key, plan, s[k..])
  {
    hide Nonce;
    forall lo, hi, i: nat, last | 0 <= lo <= hi <= |s[k..]| && Open(c, key, Nonce(i, last), s[k..][lo..hi], []).Some?
      ensures Chunk(Nonce(i, last), Open(c, key, Nonce(i, last), s[k..][lo..hi], []).value) in plan
    {
      assert s[k..][lo..hi] == s[k + lo..k + hi];
    }
  }

  /** An honest chunk found under the nonce of step i is chunk i. */
  lemma ChunkAt(p: Bytes, i: nat, last: bool, q: Bytes)
    requires ChunkCount(|p|) <= COUNTERS && i < ChunkCount(|p|)
    requires Chunk(Nonce(i, last), q) in Plan(0, p, None)
    ensures var plan := Plan(0, p, None);
            |plan| == ChunkCount(|p|) && plan[i] == Chunk(Nonce(i, last), q) && (last <==> i == |plan| - 1)
  {
    hide Nonce, Plan;
    PlanShape(0, p);
    var plan := Plan(0, p, None);
    var k :| 0 <= k < |plan| && plan[k] == Chunk(Nonce(i, last), q);
    NonceInjective(i, last, k, k == |plan| - 1);
  }

  lemma {:induction false} AuthenticatedFrom(c: Suite, key: Bytes, p: Bytes, i: nat, s: Bytes, ending: Option<Error>)
      returns (k: nat)
    requires ChunkCount(|p|) <= COUNTERS && i < ChunkCount(|p|)
    requires NoForgery(c, key, Plan(0, p, None), s)
    ensures |Plan(0, p, None)| == ChunkCount(|p|) && i <= k <= ChunkCount(|p|)
    ensures var o := OpenFrom(c, key, i, s, ending);
            && o.plain == PlainOf(Plan(0, p, None)[i..k])
            && (o.err.None? ==> k == ChunkCount(|p|) && s == SealAll(c, key, Plan(0, p, None)[i..]))
    decreases |s|
  {
    hide Nonce, Plan, NoForgery, PlainOf, SealAll, ChunkCount;
    var plan := Plan(0, p, None);
    NoneOf(c, key);
    assert |plan| == ChunkCount(|p|) by {
      PlanShape(0, p);
    }
    k := i;
    assert plan[i..i] == [];
    if |s| <= FULL {
      if SeenEnd(|s|, FULL, ending).None? && |s| >= TAG && Open(c, key, Nonce(i, true), s, []).Some? {
        AuthenticatedLast(c, key, p, i, s);
        k := i + 1;
        assert plan[i..] == plan[i..k];
        assert k == |plan|;
      }
    } else if Open(c, key, Nonce(i, false), s[..FULL], []).Some? {
      AuthenticatedHead(c, key, p, i, s);
      NoForgeryDrop(c, key, plan, s, FULL);
      k := AuthenticatedFrom(c, key, p, i + 1, s[FULL..], ending);
      FirstOf(c, key, plan, i, k);
      assert s == s[..FULL] + s[FULL..];
    }
  }

  lemma NoneOf(c: Suite, key: Bytes)
    ensures PlainOf([]) == [] && SealAll(c, key, []) == []
  {
  }

  lemma FirstOf(c: Suite, key: Bytes, plan: seq<Chunk>, i: nat, k: nat)
    requires i < k <= |plan|
    ensures PlainOf(plan[i..k]) == plan[i].plain + PlainOf(plan[i + 1..k])
    ensures SealAll(c, key, plan[i..]) == SealChunk(c, key, plan[i]) + SealAll(c, key, plan[i + 1..])
  {
    assert plan[i..k][1..] == plan[i + 1..k] && plan[i..][1..] == plan[i + 1..];
  }

  lemma AuthenticatedLast(c: Suite, key: Bytes, p: Bytes, i: nat, s: Bytes)
    requires ChunkCount(|p|) <= COUNTERS && i < ChunkCount(|p|) && NoForgery(c, key, Plan(0, p, None), s)
    requires Open(c, key, Nonce(i, true), s, []).Some?
    ensures var plan := Plan(0, p, None);
            && i == ChunkCount(|p|) - 1 == |plan| - 1
            && PlainOf(plan[i..]) == Open(c, key, Nonce(i, true), s, []).value
            && SealAll(c, key, plan[i..]) == s
  {
    var plan := Plan(0, p, None);
    assert s[0..|s|] == s;
    ChunkAt(p, i, true, Open(c, key, Nonce(i, true), s, []).value);
    assert plan[i..] == [plan[i]];
    SealAllSingle(c, key, plan[i]);
  }

  lemma {:induction false} AuthenticatedHead(c: Suite, key: Bytes, p: Bytes, i: nat, s: Bytes)
    requires ChunkCount(|p|) <= COUNTERS && i < ChunkCount(|p|) && NoForgery(c, key, Plan(0, p, None), s)
    requires |s| > FULL && Open(c, key, Nonce(i, false), s[..FULL], []).Some?
    ensures var plan := Plan(0, p, None);
            && i < ChunkCount(|p|) - 1 == |plan| - 1
            && plan[i].plain == Open(c, key, Nonce(i, false), s[..FULL], []).value
            && SealChunk(c, key, plan[i]) == s[..FULL]
  {
    assert s[0..FULL] == s[..FULL];
    ChunkAt(p, i, false, Open(c, key, Nonce(i, false), s[..FULL], []).value);
  }

  /** If nothing but honest chunks of the run that sealed p opens, then whatever was altered,
      cut, reordered or appended, only whole leading chunks of p come out, and success is
      reported on the original ciphertext alone. */
  lemma AuthenticatedPrefix(c: Suite, key: Bytes, p: Bytes, s: Bytes, ending: Option<Error>) returns (k: nat)
    requires ChunkCount(|p|) <= COUNTERS
    requires NoForgery(c, key, Plan(0, p, None), s)
    ensures k <= |Plan(0, p, None)|
    ensures OpenAll(c, key, s, ending).plain == PlainOf(Plan(0, p, None)[..k])
    ensures OpenAll(c, key, s, ending).plain <= p
    ensures OpenAll(c, key, s, ending).err.None? ==> s == Sealed(c, key, p) && OpenAll(c, key, s, ending).plain == p
  {
    k := AuthenticatedFrom(c, key, p, 0, s, ending);
    var plan := Plan(0, p, None);
    assert plan[0..k] == plan[..k] && plan[0..] == plan;
    assert plan == plan[..k] + plan[k..];
    PlainOfAppend(plan[..k], plan[k..]);
    PlanCarriesPlaintext(0, p);
  }

  lemma {:induction false} PlainOfAppend(a: seq<Chunk>, b: seq<Chunk>)
    ensures PlainOf(a + b) == PlainOf(a) + PlainOf(b)
  {
    if a == [] {
      assert a + b == b;
    } else {
      assert (a + b)[1..] == a[1..] + b;
      PlainOfAppend(a[1..], b);
    }
  }
}
