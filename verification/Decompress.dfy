/** `withDecompression`: a producer writes decrypted bytes into a pipe while a goroutine
    decompresses them into the destination.  The pipe is an unbuffered rendezvous. */
module Decompress {
  import opened Prelude
  import opened Streams

  /** The errors of the two sides; `Failed` is what `decompressError` wraps around a cause. */
  datatype Failure =
    | Stopped              // errDecompressorStopped, internal
    | TooLarge             // the size limit
    | Destination          // the destination's writer failed
    | BadStream            // the decompressor's own verdict
    | Producer(error: Error)
    | Failed(cause: Failure)

  function DecompressError(e: Failure): Failure {
    if e == TooLarge then e else Failed(e)
  }

  /** `errors.Is(e, errDecompressorStopped)`. */
  predicate IsStopped(e: Failure) {
    match e
    case Stopped => true
    case Failed(cause) => IsStopped(cause)
    case _ => false
  }

  /** The limit's error is told from all others, which are wrapped; wrapping does not hide the
      sentinel. */
  lemma OnlyTheLimitUnwrapped(e: Failure)
    ensures DecompressError(e) == TooLarge <==> e == TooLarge
    ensures e != TooLarge ==> DecompressError(e) == Failed(e)
    ensures IsStopped(Stopped) && (IsStopped(DecompressError(e)) <==> IsStopped(e))
  {
  }

  /** `limitWriter`; limit 0 stands for writing to the destination directly. */
  class LimitWriter {
    const w: Sink
    const limit: nat
    var wrote: nat

    constructor (w: Sink, limit: nat)
      ensures this.w == w && this.limit == limit && wrote == 0
    {
      this.w, this.limit := w, limit;
      wrote := 0;
    }

    /** Refuses a write that would pass the limit before any of it is forwarded. */
    method Write(p: Bytes) returns (err: Option<Failure>)
      requires !w.failed && (limit > 0 ==> wrote <= limit)
      modifies this, w
      ensures err.None? <==> !w.failed && (limit > 0 ==> old(wrote) + |p| <= limit)
      ensures err.None? ==> w.data == old(w.data) + p && wrote == old(wrote) + |p|
      ensures err == Some(TooLarge) <==> limit > 0 && old(wrote) + |p| > limit
      ensures err == Some(TooLarge) ==> w.data == old(w.data) && !w.failed && wrote == old(wrote)
      ensures err.Some? && err != Some(TooLarge) ==> err == Some(Destination) && w.failed
      ensures limit > 0 && |w.data| > |old(w.data)| ==> |w.data| - |old(w.data)| <= limit - old(wrote)
      ensures limit > 0 ==> wrote <= limit
    {
      if limit > 0 && wrote + |p| > limit {
        return Some(TooLarge);
      }
      var ok := w.Write(p);
      if !ok {
        return Some(Destination);
      }
      wrote := wrote + |p|;
      return None;
    }
  }

  /** `fn` with the write end of the pipe, up to `pw.CloseWithError`. */
  datatype Writer =
    | Working(k: nat)                    // k writes done
    | Offering(k: nat, data: Bytes)      // inside write k
    | Returned(err: Option<Failure>)
    | Closed(err: Option<Failure>)

  /** The goroutine. */
  datatype Reader =
    | Reading
    | Exiting(err: Option<Failure>)
    | ReadEndClosed(err: Option<Failure>)
    | Done(err: Option<Failure>)

  function WriterRank(w: Writer, n: nat): int {
    match w
    case Working(k) => 2 * (n - k) + 3
    case Offering(k, _) => 2 * (n - k) + 2
    case Returned(_) => 1
    case Closed(_) => 0
  }

  function PendingBytes(w: Writer): nat {
    if w.Offering? then |w.data| else 0
  }

  function ReaderRank(r: Reader): nat {
    match r case Reading => 3 case Exiting(_) => 2 case ReadEndClosed(_) => 1 case Done(_) => 0
  }

  /** How the two sides' errors depend on each other. */
  ghost predicate Protocol(writes: seq<Bytes>, result: Option<Error>, writer: Writer, reader: Reader, allForwarded: bool) {
    && (writer.Working? || writer.Offering? ==> writer.k <= |writes|)
    && (writer.Offering? ==> writer.k < |writes|)
    // the writer's error is its own result, or the sentinel once the read end is closed
    && ((writer.Returned? || writer.Closed?) && writer.err.None? ==> result.None?)
    && ((writer.Returned? || writer.Closed?) && writer.err.Some? ==>
          || (result.Some? && writer.err == Some(Producer(result.value)))
          || (writer.err == Some(Stopped) && (reader.ReadEndClosed? || reader.Done?) && reader.err.Some?))
    // the reader stops early only with an error, and never wraps the sentinel
    && (!reader.Reading? && reader.err.Some? ==> !IsStopped(reader.err.value))
    && (!reader.Reading? && reader.err.None? ==> writer == Closed(None) && allForwarded)
  }

  /** An offered write waits for a read or for the read end to close. */
  predicate WriterCanMove(writer: Writer, reader: Reader) {
    writer.Working? || writer.Returned? || (writer.Offering? && !reader.Exiting?)
  }

  /** A decompressor that does not give up waits for the pipe once it has no piece to forward. */
  predicate ReaderCanMove(writer: Writer, reader: Reader, sound: bool, morePieces: bool) {
    reader.Exiting? || reader.ReadEndClosed? || (reader.Reading? && (morePieces || writer.Closed? || !sound))
  }

  /** One step of `fn` or of closing the write end. A write ends when all its bytes are taken; an
      empty one still waits for a read. */
  method MoveWriter(writes: seq<Bytes>, result: Option<Error>, writer: Writer, reader: Reader, ghost allForwarded: bool)
      returns (next: Writer)
    requires Protocol(writes, result, writer, reader, allForwarded) && WriterCanMove(writer, reader)
    ensures Protocol(writes, result, next, reader, allForwarded)
    ensures WriterRank(next, |writes|) < WriterRank(writer, |writes|)
         || (WriterRank(next, |writes|) == WriterRank(writer, |writes|) && PendingBytes(next) < PendingBytes(writer))
  {
    match writer
    case Working(k) =>
      next := if k < |writes| then Offering(k, writes[k])
              else Returned(if result.Some? then Some(Producer(result.value)) else None);
    case Offering(k, data) =>
      if reader.Reading? {
        var n := 0;
        if data != [] {
          n :| 1 <= n <= |data|;
        }
        var rest := data[n..];
        next := if rest == [] then Working(k + 1) else Offering(k, rest);
      } else {
        next := Returned(Some(Stopped));
      }
    case Returned(err) =>
      next := Closed(err);
  }

  /** What the destination has been given. */
  ghost predicate Forwarded(out: LimitWriter, before: Bytes, pieces: seq<Bytes>, emitted: nat, reader: Reader, blameless: bool)
    requires emitted <= |pieces|
    reads out, out.w
  {
    // when neither side is to blame, only the destination or the limit stops the run
    && (!reader.Reading? && reader.err.Some? && blameless ==>
          out.w.failed || (reader.err == Some(TooLarge) && out.limit > 0 && |Flatten(pieces)| > out.limit))
    && (reader.Reading? || reader.err.None? ==> !out.w.failed && out.w.data == before + Flatten(pieces[..emitted]))
    && (reader.Reading? ==> out.wrote == |out.w.data| - |before|)
    && (out.limit > 0 ==> out.wrote <= out.limit && |out.w.data| - |before| <= out.limit)
  }

  lemma FlattenPrefix(pieces: seq<Bytes>, k: nat)
    requires k < |pieces|
    ensures |Flatten(pieces[..k])| + |pieces[k]| <= |Flatten(pieces)|
  {
    assert pieces == pieces[..k] + ([pieces[k]] + pieces[k + 1..]);
    FlattenAppend(pieces[..k], [pieces[k]] + pieces[k + 1..]);
  }

  /** One step of the goroutine: forward a piece, stop for any reason, or close and finish. */
  method MoveReader(out: LimitWriter, ghost before: Bytes, pieces: seq<Bytes>, emitted: nat, writer: Writer, reader: Reader,
                    sound: bool, ghost writes: seq<Bytes>, ghost result: Option<Error>) returns (next: Reader, emittedNow: nat)
    requires emitted <= |pieces| && ReaderCanMove(writer, reader, sound, emitted < |pieces|)
    requires Protocol(writes, result, writer, reader, emitted == |pieces|) && Forwarded(out, before, pieces, emitted, reader, sound && result.None?)
    modifies out, out.w
    ensures emitted <= emittedNow <= |pieces|
    ensures Protocol(writes, result, writer, next, emittedNow == |pieces|) && Forwarded(out, before, pieces, emittedNow, next, sound && result.None?)
    ensures emitted < emittedNow || ReaderRank(next) < ReaderRank(reader)
  {
    hide Flatten;
    next, emittedNow := reader, emitted;
    if reader.Exiting? {
      next := ReadEndClosed(reader.err);
    } else if reader.ReadEndClosed? {
      next := Done(reader.err);
    } else if {
      case emitted < |pieces| =>
        var failure := out.Write(pieces[emitted]);
        if failure.Some? {
          FlattenPrefix(pieces, emitted);
          next := Exiting(Some(DecompressError(failure.value)));
        } else {
          FlattenSnoc(pieces[..emitted], pieces[emitted]);
          assert pieces[..emitted + 1] == pieces[..emitted] + [pieces[emitted]];
          Assoc(before, Flatten(pieces[..emitted]), pieces[emitted]);
          emittedNow := emitted + 1;
        }

      case writer == Closed(None) && emitted == |pieces| =>
        next := Exiting(None);

      case writer.Closed? && writer.err.Some? =>
        assert !IsStopped(writer.err.value);
        next := Exiting(Some(DecompressError(writer.err.value)));

      case !sound =>
        next := Exiting(Some(DecompressError(BadStream)));
    }
  }

  /** Runs the handshake for a producer that makes `writes` and then returns `result`, stopping at
      the first failed write, and for a compressed stream that decodes to `pieces`. Unless it is
      `sound` the decompressor may give up at any point; it ends cleanly only at the end of the
      pipe, with every piece forwarded. The loop takes any step that is possible: what is ensured
      holds of every interleaving, the run ends, and no state is stuck. */
  method WithDecompression(dst: Sink, limit: nat, writes: seq<Bytes>, result: Option<Error>, pieces: seq<Bytes>,
                           sound: bool)
      returns (err: Option<Failure>, ghost ferr: Option<Failure>, ghost copyErr: Option<Failure>)
    requires !dst.failed
    modifies dst
    ensures err.None? <==> ferr.None? && copyErr.None?
    ensures err.Some? ==> !IsStopped(err.value)
    ensures ferr.None? ==> result.None?
    ensures copyErr.None? ==> dst.data == old(dst.data) + Flatten(pieces)
    ensures result.Some? && ferr.Some? && !IsStopped(ferr.value) ==> err == Some(Producer(result.value))
    ensures ferr.Some? && IsStopped(ferr.value) ==> copyErr.Some? && err == copyErr
    ensures limit > 0 ==> |dst.data| - |old(dst.data)| <= limit
    ensures sound && result.None? && !dst.failed ==> err == if limit > 0 && |Flatten(pieces)| > limit then Some(TooLarge) else None
  {
    ghost var before := dst.data;
    assert pieces[..0] == [] && before + Flatten([]) == before;
    hide Flatten, WriterRank;
    var out := new LimitWriter(dst, limit);
    var writer, reader := Working(0), Reading;
    var emitted := 0;
    while !(writer.Closed? && reader.Done?)
      invariant fresh(out) && out.w == dst && out.limit == limit && emitted <= |pieces|
      invariant Protocol(writes, result, writer, reader, emitted == |pieces|)
      invariant Forwarded(out, before, pieces, emitted, reader, sound && result.None?)
      decreases WriterRank(writer, |writes|), PendingBytes(writer), |pieces| - emitted, ReaderRank(reader)
    {
      hide Protocol, Forwarded, PendingBytes, ReaderRank;
      if {
        case WriterCanMove(writer, reader) =>
          writer := MoveWriter(writes, result, writer, reader, emitted == |pieces|);
        case ReaderCanMove(writer, reader, sound, emitted < |pieces|) =>
          reader, emitted := MoveReader(out, before, pieces, emitted, writer, reader, sound, writes, result);
      }
    }
    assert pieces[..|pieces|] == pieces;
    ferr, copyErr := writer.err, reader.err;
    var f, g := writer.err, reader.err;
    if f.Some? {
      if g.Some? && IsStopped(f.value) {
        err := g;
      } else {
        err := f;
      }
    } else {
      err := g;
    }
  }
}
