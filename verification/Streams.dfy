/** Byte streams: a source that delivers in pieces, a buffered reader over it, a sink that may fail. */
module Streams {
  import opened Prelude

  /** An `io.Reader`: `rest` is still to come, then end of file or the error `ending`, which may
      be `UnexpectedEof` like any other.
      How many bytes one `Read` delivers is left open. */
  class Source {
    var rest: Bytes
    const ending: Option<Error>

    constructor (content: Bytes, ending: Option<Error>)
      ensures rest == content && this.ending == ending
    {
      rest := content;
      this.ending := ending;
    }

    method Read(n: nat) returns (p: Bytes)
      requires n > 0
      modifies this
      ensures old(rest) == p + rest && |p| <= n
      ensures p == [] <==> old(rest) == []
    {
      if rest == [] {
        return [];
      }
      var k :| 1 <= k <= n && k <= |rest|;
      p, rest := rest[..k], rest[k..];
    }
  }

  /** How a read of a fixed number of bytes ended. */
  datatype ReadStatus = Complete | CutShort | AtEof | Broken(error: Error)

  /** How reading n bytes ends when only `available` are left before `ending`. The error of a
      short read, `io.ErrUnexpectedEOF`, is told from nothing when the source itself returns it. */
  function ReadEnd(available: nat, n: nat, ending: Option<Error>): ReadStatus {
    if available >= n then Complete
    else if ending == Some(UnexpectedEof) then CutShort
    else if ending.Some? then Broken(ending.value)
    else if available == 0 then AtEof
    else CutShort
  }

  /** How peeking at one byte ends: here the source's error is passed on as it is. */
  function PeekEnd(available: nat, ending: Option<Error>): ReadStatus {
    if available >= 1 then Complete
    else if ending.Some? then Broken(ending.value)
    else AtEof
  }

  /** What a loop that reads n bytes and then peeks makes of a source with no more than n left:
      the error it returns, or None when it takes them for the last. */
  function SeenEnd(available: nat, n: nat, ending: Option<Error>): Option<Error> {
    if available < n && ending == Some(UnexpectedEof) then None else ending
  }

  /** A `bufio.Reader`. */
  class BufReader {
    var buffered: Bytes
    const size: nat
    const src: Source

    constructor (src: Source, size: nat)
      requires size > 0
      ensures this.src == src && this.size == size && buffered == []
    {
      this.src := src;
      this.size := size;
      buffered := [];
    }

    /** Everything the reader has yet to hand out. */
    ghost function Contents(): Bytes
      reads this, src
    {
      buffered + src.rest
    }

    method Read(n: nat) returns (p: Bytes)
      requires n > 0 && size > 0
      modifies this, src
      ensures old(Contents()) == p + Contents() && |p| <= n
      ensures p == [] <==> old(Contents()) == []
    {
      if buffered == [] {
        if n >= size {
          p := src.Read(n);
          return;
        }
        buffered := src.Read(size);
      }
      var k := Min(n, |buffered|);
      p, buffered := buffered[..k], buffered[k..];
      assert old(Contents()) == p + Contents();
    }

    /** `io.ReadFull`. */
    method ReadFull(n: nat) returns (p: Bytes, status: ReadStatus)
      requires size > 0
      modifies this, src
      ensures old(Contents()) == p + Contents()
      ensures |p| == Min(n, |old(Contents())|)
      ensures status == ReadEnd(|old(Contents())|, n, src.ending)
    {
      p := [];
      while |p| < n
        invariant |p| <= n
        invariant old(Contents()) == p + Contents()
        decreases n - |p|
      {
        var q := Read(n - |p|);
        if q == [] {
          assert old(Contents()) == p;
          status := if src.ending == Some(UnexpectedEof) then CutShort
          else if src.ending.Some? then Broken(src.ending.value)
          else if p == [] then AtEof else CutShort;
          return;
        }
        p := p + q;
      }
      status := Complete;
    }

    /** `Peek(1)`: whether a byte is left, leaving it unread. */
    method Peek() returns (status: ReadStatus)
      requires size > 0
      modifies this, src
      ensures Contents() == old(Contents())
      ensures status == PeekEnd(|Contents()|, src.ending)
    {
      if buffered == [] {
        buffered := src.Read(size);
      }
      status := if buffered != [] then Complete
      else if src.ending.Some? then Broken(src.ending.value) else AtEof;
    }
  }

  /** An `io.Writer` that may fail at any write after taking any part of it. */
  class Sink {
    var data: Bytes
    var failed: bool

    constructor ()
      ensures data == [] && !failed
    {
      data, failed := [], false;
    }

    method Write(p: Bytes) returns (ok: bool)
      modifies this
      ensures failed == (old(failed) || !ok)
      ensures ok ==> data == old(data) + p
      ensures !ok ==> WrotePart(old(data), data, p)
    {
      if * {
        data, ok := data + p, true;
      } else {
        var k :| 0 <= k <= |p|;
        data, failed, ok := data + p[..k], true, false;
      }
    }
  }

  /** `now` is `before` followed by some part of `out`. */
  ghost predicate WrotePart(before: Bytes, now: Bytes, out: Bytes) {
    exists k :: 0 <= k <= |out| && now == before + out[..k]
  }

  lemma WrotePartAfter(before: Bytes, head: Bytes, now: Bytes, tail: Bytes, rest: Bytes)
    requires WrotePart(before + head, now, tail)
    ensures WrotePart(before, now, head + tail + rest)
  {
    var k :| 0 <= k <= |tail| && now == before + head + tail[..k];
    assert (head + tail + rest)[..|head| + k] == head + tail[..k];
    assert now == before + (head + tail + rest)[..|head| + k];
  }

  /** What a sink holds after a run that meant to write `out` and then end with `err`. */
  ghost predicate Delivered(before: Bytes, dst: Sink, out: Bytes, err: Option<Error>, meant: Option<Error>)
    reads dst
  {
    if dst.failed then err == Some(SinkError) && WrotePart(before, dst.data, out)
    else err == meant && dst.data == before + out
  }

  /** `io.Copy`. */
  method Copy(dst: Sink, br: BufReader) returns (err: Option<Error>)
    requires !dst.failed && br.size > 0
    modifies dst, br, br.src
    ensures Delivered(old(dst.data), dst, old(br.Contents()), err, br.src.ending)
  {
    ghost var before, all, sent := dst.data, br.Contents(), [];
    while true
      invariant !dst.failed && all == sent + br.Contents()
      invariant dst.data == before + sent
      decreases |br.Contents()|
    {
      var p := br.Read(32 * 1024);
      if p == [] {
        assert all == sent;
        return br.src.ending;
      }
      assert all == sent + p + br.Contents();
      var ok := dst.Write(p);
      if !ok {
        WrotePartAfter(before, sent, dst.data, p, br.Contents());
        return Some(SinkError);
      }
      sent := sent + p;
    }
  }
}
