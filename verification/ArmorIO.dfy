/** The streaming armor writer and reader. */
module ArmorIO {
  import opened Prelude
  import opened Streams
  import opened Base64
  import opened Armor
  import opened ArmorTheorems

  // ----- the writer

  /** What writing t adds to the output when `col` columns of the line are taken. */
  function Laid(col: nat, t: Text): Text
    requires col < COLS
    decreases |t|
  {
    if |t| < COLS - col then t
    else t[..COLS - col] + [NEWLINE] + Laid(0, t[COLS - col..])
  }

  /** The column text t ends in when it starts in column col. */
  function ColumnAfter(col: nat, t: Text): (next: nat)
    ensures next < COLS
  {
    (col + |t|) % COLS
  }

  lemma ColumnTwice(col: nat, a: Text, b: Text)
    ensures ColumnAfter(col, a + b) == ColumnAfter(ColumnAfter(col, a), b)
  {
  }

  /** How many of n bytes make whole groups. */
  function Whole(n: nat): (m: nat)
    ensures m <= n && n - m < 3
  {
    n - n % 3
  }

  lemma WholeIs(n: nat)
    ensures Whole(n) % 3 == 0 && (n < 3 ==> Whole(n) == 0)
  {
  }

  /** How many groups that is. */
  function GroupsIn(n: nat): (g: nat)
    ensures Whole(n) == 3 * g && (n >= 3 ==> g > 0)
  {
    n / 3
  }

  lemma WholeGroups(n: nat, groups: nat, left: nat)
    requires n == 3 * groups + left && left < 3
    ensures Whole(n) == 3 * groups
  {
  }

  /** Inserts a line feed after every 64 columns. */
  class LineWriter {
    const w: Sink
    var col: nat

    constructor (w: Sink)
      ensures this.w == w && col == 0
    {
      this.w := w;
      col := 0;
    }

    method Write(p: Text) returns (ok: bool)
      requires col < COLS && !w.failed
      modifies this, w
      ensures ok == !w.failed
      ensures ok ==> w.data == old(w.data) + Laid(old(col), p) && col == ColumnAfter(old(col), p)
    {
      hide Laid;
      var rest := p;
      LaidNothing(0);
      assert old(w.data) + Laid(old(col), p) == w.data + Laid(col, rest);
      while rest != []
        invariant col < COLS && !w.failed
        invariant old(w.data) + Laid(old(col), p) == w.data + Laid(col, rest)
        invariant ColumnAfter(col, rest) == ColumnAfter(old(col), p)
        decreases |rest|
      {
        var n := Min(COLS - col, |rest|);
        ghost var before, start := w.data, col;
        LaidStep(before, start, rest, n);
        ok := w.Write(rest[..n]);
        if !ok {
          return false;
        }
        col := col + n;
        rest := rest[n..];
        if col == COLS {
          ok := w.Write([NEWLINE]);
          if !ok {
            return false;
          }
          col := 0;
        }
      }
      LaidNothing(col);
      return true;
    }
  }

  lemma LaidNothing(col: nat)
    requires col < COLS
    ensures Laid(col, []) == []
  {
  }

  /** One turn of the line loop. */
  lemma LaidStep(data: Text, col: nat, rest: Text, n: nat)
    requires col < COLS && rest != [] && n == Min(COLS - col, |rest|)
    ensures data + Laid(col, rest)
         == if col + n == COLS then data + rest[..n] + [NEWLINE] + Laid(0, rest[n..])
            else data + rest[..n] + Laid(col + n, rest[n..])
  {
    if col + n == COLS {
      assert Laid(col, rest) == rest[..n] + [NEWLINE] + Laid(0, rest[n..]);
    } else {
      assert rest[..n] == rest && rest[n..] == [];
      assert Laid(col + n, []) == [];
    }
  }

  /** Laying out a and then b, when a ends in column `next` of the q-th line after. */
  lemma {:induction false} LaidSplit(col: nat, a: Text, b: Text, q: nat, next: nat)
    requires col < COLS && next < COLS && col + |a| == COLS * q + next
    ensures Laid(col, a + b) == Laid(col, a) + Laid(next, b)
    decreases |a|
  {
    hide Laid;
    var n := COLS - col;
    LaidUnfolds(col, a);
    LaidUnfolds(col, a + b);
    LaidUnfolds(next, b);
    if |a| >= n {
      assert (a + b)[..n] == a[..n] && (a + b)[n..] == a[n..] + b;
      LaidSplit(0, a[n..], b, q - 1, next);
      Assoc(a[..n] + [NEWLINE], Laid(0, a[n..]), Laid(next, b));
    } else {
      assert q == 0;
      if |a| + |b| >= n {
        var k := n - |a|;
        assert (a + b)[..n] == a + b[..k] && (a + b)[n..] == b[k..];
      }
    }
  }

  lemma LaidUnfolds(col: nat, t: Text)
    requires col < COLS
    ensures var n := COLS - col;
            Laid(col, t) == if |t| < n then t else t[..n] + [NEWLINE] + Laid(0, t[n..])
  {
  }

  lemma LaidAppend(col: nat, a: Text, b: Text)
    requires col < COLS
    ensures Laid(col, a + b) == Laid(col, a) + Laid(ColumnAfter(col, a), b)
  {
    hide Laid;
    LaidSplit(col, a, b, (col + |a|) / COLS, (col + |a|) % COLS);
  }

  lemma {:induction false} LaidIsWrapped(t: Text)
    ensures Laid(0, t) == Wrapped(t)
    decreases |t|
  {
    if |t| >= COLS {
      LaidIsWrapped(t[COLS..]);
    }
  }

  const ENCODER_BLOCK := 768  // what fits the encoder's 1024-byte output buffer

  /** The streaming base64 encoder: up to two bytes wait for their group to fill. */
  class Encoder {
    const lw: LineWriter
    var pending: Bytes
    var broken: bool

    constructor (lw: LineWriter)
      ensures this.lw == lw && pending == [] && !broken
    {
      this.lw := lw;
      pending := [];
      broken := false;
    }

    /** Sends the encoding of p, whole groups or the final piece. */
    method Emit(p: Bytes) returns (ok: bool)
      requires lw.col < COLS && !lw.w.failed
      modifies this`broken, lw, lw.w
      ensures ok == !lw.w.failed && broken == (old(broken) || !ok)
      ensures ok ==> lw.w.data == old(lw.w.data) + Laid(old(lw.col), Encode(p))
      ensures ok ==> lw.col == ColumnAfter(old(lw.col), Encode(p))
    {
      ok := lw.Write(Encode(p));
      broken := broken || !ok;
    }

    /** Completes the waiting group if there is one: the bytes of p not used yet, or nothing
        when p did not fill the group. */
    method FillGroup(p: Bytes) returns (rest: Option<Bytes>)
      requires lw.col < COLS && |pending| < 3 && !broken && !lw.w.failed
      modifies this, lw, lw.w
      ensures broken == lw.w.failed && |pending| < 3
      ensures !broken && rest.None? ==>
                && pending == old(pending) + p && lw.w.data == old(lw.w.data) && lw.col == old(lw.col)
      ensures !broken && rest.Some? ==>
                var all := old(pending) + p;
                var n := |all| - |rest.value|;
                && pending == [] && lw.col < COLS && (n == 0 || n == 3) && rest.value == all[n..]
                && Sent(old(lw.col), old(lw.w.data), all, n, lw.w.data, lw.col)
    {
      hide Encode, Laid, Sent;
      ghost var all, start, data := pending + p, lw.col, lw.w.data;
      NothingSent(start, data, all);
      if pending == [] {
        assert all == p && all[0..] == all;
        return Some(p);
      }
      var i := Min(3 - |pending|, |p|);
      pending := pending + p[..i];
      if |pending| < 3 {
        assert p[..i] == p;
        return None;
      }
      assert pending == all[0..3] && p[i..] == all[3..];
      SentMore(start, data, all, 0, 0, pending);
      var ok := Emit(pending);
      pending := [];
      return Some(p[i..]);
    }

    /** Encodes the whole groups of rest, a block at a time. */
    method Interior(p: Bytes, ghost start: nat, ghost data: Text, ghost all: Bytes, ghost before: nat) returns (rest: Bytes)
      requires lw.col < COLS && start < COLS && pending == [] && !broken && !lw.w.failed
      requires 3 * before + |p| == |all| && p == all[3 * before..]
      requires Sent(start, data, all, 3 * before, lw.w.data, lw.col)
      modifies this`broken, lw, lw.w
      ensures broken == lw.w.failed
      ensures !broken ==>
                && lw.col < COLS && rest == all[Whole(|all|)..]
                && Sent(start, data, all, Whole(|all|), lw.w.data, lw.col)
    {
      hide Encode, Laid, Sent, Whole;
      rest := p;
      ghost var groups := before;
      while |rest| >= 3
        invariant !broken && !lw.w.failed && lw.col < COLS
        invariant |rest| + 3 * groups == |all| && rest == all[3 * groups..]
        invariant Sent(start, data, all, 3 * groups, lw.w.data, lw.col)
      {
        var nn := ENCODER_BLOCK;
        ghost var more: nat := 256;
        if nn > |rest| {
          nn := Whole(|rest|);
          more := GroupsIn(|rest|);
        }
        assert rest[..nn] == all[3 * groups..3 * groups + nn];
        SentMore(start, data, all, 3 * groups, groups, rest[..nn]);
        var ok := Emit(rest[..nn]);
        if !ok {
          return;
        }
        rest, groups := rest[nn..], groups + more;
      }
      WholeGroups(|all|, groups, |rest|);
    }

    method Write(p: Bytes) returns (ok: bool)
      requires !broken ==> lw.col < COLS && |pending| < 3 && !lw.w.failed
      modifies this, lw, lw.w
      ensures ok == !broken && (!old(broken) ==> broken == lw.w.failed)
      ensures old(broken) ==> !ok
      ensures !old(broken) && ok ==>
                var all := old(pending) + p;
                var m := Whole(|all|);
                && !lw.w.failed && lw.col < COLS && pending == all[m..]
                && Sent(old(lw.col), old(lw.w.data), all, m, lw.w.data, lw.col)
    {
      hide Encode, Laid, Sent;
      if broken {
        return false;
      }
      ghost var all, start, data := pending + p, lw.col, lw.w.data;
      var rest := FillGroup(p);
      if broken {
        return false;
      }
      if rest.None? {
        WholeIs(|all|);
        assert all[0..] == all;
        NothingSent(start, data, all);
        return true;
      }
      var tail := Interior(rest.value, start, data, all, if |rest.value| == |all| then 0 else 1);
      if broken {
        return false;
      }
      pending := tail;
      return true;
    }

    method Close() returns (ok: bool)
      requires !broken ==> lw.col < COLS && |pending| < 3 && !lw.w.failed
      modifies this, lw, lw.w
      ensures ok == !broken && (!old(broken) ==> broken == lw.w.failed)
      ensures old(broken) ==> !ok
      ensures !old(broken) && ok ==>
                && !lw.w.failed && pending == []
                && lw.w.data == old(lw.w.data) + Laid(old(lw.col), Encode(old(pending)))
                && lw.col == ColumnAfter(old(lw.col), Encode(old(pending)))
    {
      if broken {
        return false;
      }
      if pending != [] {
        ok := Emit(pending);
        pending := [];
        return;
      }
      assert Encode([]) == [] && Laid(lw.col, []) == [];
      return true;
    }
  }

  /** The first n bytes of `all` have been encoded and laid out. */
  ghost predicate Sent(start: nat, data: Text, all: Bytes, n: nat, now: Text, col: nat)
    requires start < COLS && n <= |all|
  {
    now == data + Laid(start, Encode(all[..n])) && col == ColumnAfter(start, Encode(all[..n]))
  }

  lemma NothingSent(start: nat, data: Text, all: Bytes)
    requires start < COLS
    ensures Sent(start, data, all, 0, data, start)
  {
    assert all[..0] == [];
    assert Encode([]) == [] && Laid(start, []) == [];
  }

  lemma {:induction false} SentMore(start: nat, data: Text, all: Bytes, n: nat, groups: nat, piece: Bytes)
    requires start < COLS && n + |piece| <= |all| && n == 3 * groups && piece == all[n..n + |piece|]
    ensures forall now, col: nat :: col < COLS && Sent(start, data, all, n, now, col) ==>
              Sent(start, data, all, n + |piece|, now + Laid(col, Encode(piece)), ColumnAfter(col, Encode(piece)))
  {
    hide Encode, Laid, Whole;
    var a, b := Encode(all[..n]), Encode(piece);
    assert all[..n + |piece|] == all[..n] + piece;
    WholeGroups(n, groups, 0);
    WholeIs(n);
    EncodeAppend(all[..n], piece);
    LaidAppend(start, a, b);
    ColumnTwice(start, a, b);
    Assoc(data, Laid(start, a), Laid(ColumnAfter(start, a), b));
  }

  /** What a writer has sent and holds back keeps step with the bytes `written`. */
  ghost predicate InStep(started: bool, written: Bytes, pending: Bytes, col: nat, data: Text, before: Text) {
    var m := Whole(|written|);
    && pending == written[m..] && col == ColumnAfter(0, Encode(written[..m]))
    && if started then data == before + (BEGIN + [NEWLINE]) + Wrapped(Encode(written[..m]))
       else written == [] && data == before
  }

  lemma NothingWritten(before: Text)
    ensures InStep(false, [], [], 0, before, before)
  {
    hide BEGIN;
    NothingWrapped();
  }

  lemma NothingWrapped()
    ensures Wrapped(Encode([])) == [] && Encode([]) == []
  {
  }

  lemma BeginWritten(written: Bytes, pending: Bytes, col: nat, data: Text, before: Text)
    requires InStep(false, written, pending, col, data, before)
    ensures InStep(true, written, pending, col, data + (BEGIN + [NEWLINE]), before)
  {
    hide BEGIN, Encode, Wrapped, ColumnAfter, Whole;
    NothingWrapped();
    assert written[..Whole(|written|)] == [];
    assert before + (BEGIN + [NEWLINE]) + [] == before + (BEGIN + [NEWLINE]);
  }

  class ArmorWriter {
    const lw: LineWriter
    const enc: Encoder
    var started: bool
    var closed: bool
    ghost var written: Bytes     // everything accepted so far
    ghost const before: Text     // what the sink held at the start

    /** As long as the sink has not failed, it holds what `written` calls for. */
    ghost predicate Valid()
      reads this, lw, lw.w, enc
    {
      && enc.lw == lw
      && (!lw.w.failed ==> !enc.broken && lw.col < COLS && |enc.pending| < 3 && Holds())
    }

    ghost predicate Holds()
      reads this, lw, lw.w, enc
    {
      if closed then lw.w.data == before + Armored(written)
      else InStep(started, written, enc.pending, lw.col, lw.w.data, before)
    }

    constructor (w: Sink)
      requires !w.failed
      ensures Valid() && !started && !closed && written == [] && before == w.data && lw.w == w
      ensures fresh(lw) && fresh(enc)
    {
      hide BEGIN, END, Armored, InStep;
      var lines := new LineWriter(w);
      lw := lines;
      enc := new Encoder(lines);
      started, closed := false, false;
      written, before := [], w.data;
      new;
      NothingWritten(w.data);
    }

    method Start() returns (ok: bool)
      requires Valid() && !closed && !lw.w.failed
      modifies this`started, lw.w
      ensures Valid() && started && ok == !lw.w.failed
    {
      hide BEGIN, END, Armored, InStep;
      if started {
        return true;
      }
      started := true;
      BeginWritten(written, enc.pending, lw.col, lw.w.data, before);
      ok := lw.w.Write(BEGIN + [NEWLINE]);
    }

    /** Refused after Close; otherwise the bytes are accepted unless the sink fails. */
    method Write(p: Bytes) returns (ok: bool)
      requires Valid() && !lw.w.failed
      modifies this`started, this`written, lw, enc, lw.w
      ensures Valid() && ok == (!old(closed) && !lw.w.failed)
      ensures ok ==> written == old(written) + p
      ensures old(closed) ==> lw.w.data == old(lw.w.data) && !lw.w.failed && written == old(written)
      ensures closed == old(closed)
    {
      hide Encode, Laid, Wrapped, Armored, BEGIN, END, InStep, ColumnAfter, Whole;
      if closed {
        return false;
      }
      ok := Start();
      if !ok {
        return;
      }
      ghost var earlier, data, col, pending := written, lw.w.data, lw.col, enc.pending;
      ok := enc.Write(p);
      if ok {
        written := written + p;
        Continue(earlier, p, pending, col, data, before);
      }
    }

    method Close() returns (ok: bool)
      requires Valid() && !lw.w.failed
      modifies this`started, this`closed, lw, enc, lw.w
      ensures Valid() && closed && ok == !lw.w.failed
      ensures ok ==> lw.w.data == before + Armored(written)
    {
      hide Encode, Laid, Wrapped, Armored, BEGIN, END, InStep, ColumnAfter, Whole;
      if closed {
        return true;
      }
      ok := Start();
      if !ok {
        closed := true;
        return;
      }
      closed := true;
      ghost var data, col, pending := lw.w.data, lw.col, enc.pending;
      Finish(written, pending, col, data, before);
      ok := enc.Close();
      if !ok {
        return;
      }
      if lw.col > 0 {
        ok := lw.w.Write([NEWLINE]);
        if !ok {
          return;
        }
      }
      ok := lw.w.Write(END + [NEWLINE]);
      if ok {
        ArmoredParts(before, written, lw.col);
      }
    }
  }

  /** Accepting p keeps the writer in step. */
  lemma {:induction false} Continue(earlier: Bytes, p: Bytes, pending: Bytes, col: nat, data: Text, before: Text)
    requires col < COLS && InStep(true, earlier, pending, col, data, before)
    ensures var all := pending + p;
            var m := Whole(|all|);
            InStep(true, earlier + p, all[m..], ColumnAfter(col, Encode(all[..m])), data + Laid(col, Encode(all[..m])), before)
  {
    hide Encode, Laid, Wrapped, ColumnAfter, BEGIN;
    var w, all, total := Whole(|earlier|), pending + p, earlier + p;
    var head, m, k := earlier[..w], Whole(|all|), Whole(|total|);
    WholeSplits(|earlier|, |p|);
    assert total == head + all;
    assert total[..k] == head + all[..m] && total[k..] == all[m..];
    WholeIs(|earlier|);
    EncodeAppend(head, all[..m]);
    Layout(before + (BEGIN + [NEWLINE]), Encode(head), Encode(all[..m]), col);
  }

  lemma WholeSplits(n: nat, more: nat)
    ensures Whole(n + more) == Whole(n) + Whole(n - Whole(n) + more)
  {
    hide Whole, GroupsIn;
    var left := n - Whole(n) + more;
    WholeGroups(n + more, GroupsIn(n) + GroupsIn(left), left - Whole(left));
  }

  /** Laying b out after a wrapped a continues its last line. */
  lemma Layout(front: Text, a: Text, b: Text, col: nat)
    requires col == ColumnAfter(0, a)
    ensures front + Wrapped(a) + Laid(col, b) == front + Wrapped(a + b)
    ensures ColumnAfter(col, b) == ColumnAfter(0, a + b)
  {
    hide Laid, Wrapped;
    LaidIsWrapped(a);
    LaidIsWrapped(a + b);
    LaidAppend(0, a, b);
    ColumnTwice(0, a, b);
    Assoc(front, Wrapped(a), Laid(col, b));
  }

  lemma {:induction false} Finish(written: Bytes, pending: Bytes, col: nat, data: Text, before: Text)
    requires col < COLS && InStep(true, written, pending, col, data, before)
    ensures data + Laid(col, Encode(pending)) == before + (BEGIN + [NEWLINE]) + Wrapped(Encode(written))
    ensures ColumnAfter(col, Encode(pending)) == ColumnAfter(0, Encode(written))
  {
    hide Encode, Laid, Wrapped, ColumnAfter, Whole, BEGIN;
    var head := written[..Whole(|written|)];
    assert written == head + pending;
    WholeIs(|written|);
    EncodeAppend(head, pending);
    Layout(before + (BEGIN + [NEWLINE]), Encode(head), Encode(pending), col);
  }

  lemma {:induction false} ArmoredParts(before: Text, written: Bytes, col: nat)
    requires col == ColumnAfter(0, Encode(written))
    ensures before + (BEGIN + [NEWLINE]) + Wrapped(Encode(written)) + (if col > 0 then [NEWLINE] else []) + (END + [NEWLINE])
         == before + Armored(written)
  {
    hide Encode, Wrapped, BEGIN, END;
  }

  /** Armors the concatenation of the pieces: how it is cut into writes leaves no trace. */
  method WriteAll(w: Sink, pieces: seq<Bytes>) returns (ok: bool)
    requires !w.failed
    modifies w
    ensures ok == !w.failed
    ensures ok ==> w.data == old(w.data) + Armored(Flatten(pieces))
  {
    hide Armored, Flatten, ArmorWriter.Valid;
    var a := new ArmorWriter(w);
    assert Flatten([]) == [] by { FlattenEmpty(); }
    for i := 0 to |pieces|
      invariant fresh(a) && fresh(a.lw) && fresh(a.enc) && a.lw.w == w && a.before == old(w.data)
      invariant a.Valid() && !w.failed && !a.closed && a.written == Flatten(pieces[..i])
    {
      ok := a.Write(pieces[i]);
      if !ok {
        return;
      }
      FlattenSnoc(pieces[..i], pieces[i]);
      assert pieces[..i + 1] == pieces[..i] + [pieces[i]];
    }
    assert pieces[..|pieces|] == pieces;
    ok := a.Close();
  }

  lemma FlattenEmpty()
    ensures Flatten([]) == []
  {
  }

  // ----- the reader

  lemma LineLenUnfolds(s: Text)
    ensures LineLen(s) == if s == [] then 0 else if s[0] == NEWLINE then 1 else 1 + LineLen(s[1..])
  {
  }

  class ArmorReader {
    const br: BufReader
    var buf: Bytes
    var state: State
    var err: Option<ReadError>

    constructor (br: BufReader)
      ensures this.br == br && Pending() == ReadFrom(br.Contents(), br.src.ending, INITIAL)
    {
      this.br := br;
      buf, state, err := [], INITIAL, None;
      new;
      var r := ReadFrom(br.Contents(), br.src.ending, INITIAL);
      assert [] + r.bytes == r.bytes;
    }

    /** Everything still to be delivered, and the error after it. */
    ghost function Pending(): Read
      reads this, br, br.src
    {
      if err.Some? then Armor.Read(buf, err.value)
      else
        var r := ReadFrom(br.Contents(), br.src.ending, state);
        Armor.Read(buf + r.bytes, r.error)
    }

    /** `ReadString('\n')`: the first line with its terminator, or all there is. */
    method ReadString() returns (line: Text, terminated: bool)
      requires br.size > 0
      modifies br, br.src
      ensures var all := old(br.Contents());
              && line == all[..LineLen(all)] && br.Contents() == all[LineLen(all)..]
              && terminated == (line != [] && line[|line| - 1] == NEWLINE)
    {
      hide LineLen;
      ghost var all := br.Contents();
      line, terminated := [], false;
      while !terminated
        invariant all == line + br.Contents()
        invariant terminated ==> line != [] && line[|line| - 1] == NEWLINE && LineLen(all) == |line|
        invariant !terminated ==> LineLen(all) == |line| + LineLen(br.Contents())
        invariant !terminated ==> (line != [] ==> line[|line| - 1] != NEWLINE)
        decreases |br.Contents()|, !terminated
      {
        ghost var left := br.Contents();
        LineLenUnfolds(left);
        var p := br.Read(1);
        if p == [] {
          return;
        }
        assert left[0] == p[0] && left[1..] == br.Contents();
        Assoc(line, p, br.Contents());
        line, terminated := line + p, p[0] == NEWLINE;
      }
    }

    /** `readLine`. */
    method ReadLine() returns (r: Line)
      requires br.size > 0
      modifies br, br.src
      ensures r == FirstLine(old(br.Contents()), br.src.ending)
      ensures br.Contents() == old(br.Contents())[LineLen(old(br.Contents()))..]
    {
      hide LineLen, TrimEnd;
      var line, terminated := ReadString();
      if |line| > MAX_LINE {
        return NoLine(Malformed);
      }
      if !terminated && br.src.ending.Some? {
        return NoLine(SourceBroke(br.src.ending.value));
      }
      if line == [] {
        return NoLine(CleanEof);
      }
      return Line.Line(TrimEnd(line));
    }

    /** `fill`: one line's worth of progress. */
    method FillOnce()
      requires br.size > 0 && buf == [] && err.None?
      modifies this, br, br.src
      ensures Pending() == old(Pending())
      ensures |br.Contents()| <= old(|br.Contents()|)
      ensures err.Some? || |br.Contents()| < old(|br.Contents()|)
    {
      hide Fill, FirstLine, LineLen;
      ghost var all, ending, want := br.Contents(), br.src.ending, Pending();
      var line := ReadLine();
      ghost var r := ReadFrom(all, ending, state);
      assert [] + r.bytes == r.bytes;
      LinesAdvance(all, ending);
      if line.NoLine? {
        err := Some(if line.error == CleanEof && !state.done then Malformed else line.error);
        return;
      }
      var f := Fill(line.text, state);
      if f.Bad? {
        err := Some(f.error);
        return;
      }
      state, buf := f.state, f.bytes;
    }

    /** `Read` with a buffer of n bytes. */
    method Read(n: nat) returns (p: Bytes, e: Option<ReadError>)
      requires br.size > 0
      modifies this, br, br.src
      ensures |p| <= n && old(Pending()) == Armor.Read(p + Pending().bytes, Pending().error)
      ensures e.Some? ==> p == [] && old(Pending()) == Armor.Read([], e.value)
      ensures p == [] && n > 0 ==> e.Some?
    {
      hide ReadFrom;
      while buf == [] && err.None?
        invariant Pending() == old(Pending())
        decreases |br.Contents()|, err.None?
      {
        FillOnce();
      }
      if buf != [] {
        var k := Min(n, |buf|);
        ghost var whole := buf;
        p, e := buf[..k], None;
        buf := buf[k..];
        assert whole == p + buf;
        if err.None? {
          Assoc(p, buf, ReadFrom(br.Contents(), br.src.ending, state).bytes);
        }
        return;
      }
      return [], err;
    }
  }

  /** A line that is found takes at least one byte. */
  lemma LinesAdvance(s: Text, ending: Option<Error>)
    ensures FirstLine(s, ending).Line? ==> LineLen(s) > 0
  {
  }

  /** Reads with the given buffer sizes until they run out or an error is returned. */
  method ReadAll(r: ArmorReader, sizes: seq<nat>) returns (out: Bytes, e: Option<ReadError>)
    requires r.br.size > 0
    modifies r, r.br, r.br.src
    ensures old(r.Pending()) == Armor.Read(out + r.Pending().bytes, r.Pending().error)
    ensures e.Some? ==> old(r.Pending()) == Armor.Read(out, e.value)
    ensures (forall n :: n in sizes ==> n > 0) && |sizes| > |old(r.Pending()).bytes| ==> e.Some?
  {
    hide ReadFrom;
    ghost var want := r.Pending();
    out, e := [], None;
    assert [] + want.bytes == want.bytes;
    for i := 0 to |sizes|
      invariant e.None? && want == Armor.Read(out + r.Pending().bytes, r.Pending().error)
      invariant (forall n :: n in sizes ==> n > 0) ==> |out| >= i
    {
      ghost var mid := r.Pending();
      var p;
      p, e := r.Read(sizes[i]);
      if e.Some? {
        assert mid == Armor.Read([], e.value);
        assert out + mid.bytes == out && [] + r.Pending().bytes == r.Pending().bytes;
        return;
      }
      assert sizes[i] in sizes;
      Assoc(out, p, r.Pending().bytes);
      out := out + p;
    }
  }

  /** Any bytes, cut into any writes, read back with any buffer sizes: what comes out is a prefix
      of what went in, and the first error is a clean end of file after all of it.  With positive
      sizes, one more read than there are bytes is enough to get there. */
  method Transfer(pieces: seq<Bytes>, sizes: seq<nat>) returns (out: Bytes, e: Option<ReadError>, failed: bool)
    ensures !failed ==> out <= Flatten(pieces)
    ensures !failed && e.Some? ==> e == Some(CleanEof) && out == Flatten(pieces)
    ensures !failed && (forall n :: n in sizes ==> n > 0) && |sizes| > |Flatten(pieces)| ==> e.Some?
  {
    hide Armored, ReadFrom, Flatten;
    var w := new Sink();
    var ok := WriteAll(w, pieces);
    if !ok {
      return [], None, true;
    }
    assert w.data == Armored(Flatten(pieces));
    RoundTrip(Flatten(pieces));
    var src := new Source(w.data, None);
    var br := new BufReader(src, 4096);
    assert br.Contents() == w.data;
    var r := new ArmorReader(br);
    out, e := ReadAll(r, sizes);
    failed := false;
  }
}
