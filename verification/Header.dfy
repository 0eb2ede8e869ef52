/** The v2 header: how it is printed, how it is read back, and that the two are inverse.
    The layout is the one in docs/FORMAT.md. */
module Header {
  import opened Prelude
  import opened Streams

  const MAGIC_V1: Bytes := [0x53, 0x49, 0x4e, 0x44, 0x4f, 0x4f, 0x4b, 0x31]  // SINDOOK1
  const MAGIC_V2: Bytes := [0x53, 0x49, 0x4e, 0x44, 0x4f, 0x4f, 0x4b, 0x32]  // SINDOOK2

  const XWING_SLOT: Byte := 0x01
  const PASS_SLOT: Byte := 0x02

  const NONCE := 16
  const SALT := 16
  const MAC := 32
  const MAX_SLOTS := 32
  const MAX_PASS_SLOTS := 4
  const MAX_BODY := 4096

  datatype Slot = Slot(kind: Byte, body: Bytes)

  datatype Parsed = Parsed(nonce: Bytes, slots: seq<Slot>, mac: Bytes)

  function PrintSlot(s: Slot): Bytes {
    [s.kind] + BigEndian(|s.body|, 2) + s.body
  }

  function PrintSlots(slots: seq<Slot>): Bytes {
    if slots == [] then [] else PrintSlot(slots[0]) + PrintSlots(slots[1..])
  }

  /** Everything the header MAC covers.  The count is one byte and a body length two,
      so larger numbers would lose their high digits. */
  function PrintUnsigned(nonce: Bytes, slots: seq<Slot>): Bytes {
    MAGIC_V2 + nonce + [|slots| % 256] + PrintSlots(slots)
  }

  function Print(h: Parsed): Bytes {
    PrintUnsigned(h.nonce, h.slots) + h.mac
  }

  ghost predicate Readable(h: Parsed) {
    && |h.nonce| == NONCE && |h.mac| == MAC
    && 1 <= |h.slots| <= MAX_SLOTS
    && forall s :: s in h.slots ==> |s.body| <= MAX_BODY
  }

  // ----- reading

  function Size16(high: int, low: int): int {
    high * 256 + low
  }

  /** n slots from the front of s, and what follows them. */
  function ParseSlots(s: Bytes, n: nat): (r: Option<(seq<Slot>, Bytes)>)
    ensures r.Some? ==> |r.value.0| == n && |r.value.1| <= |s|
    decreases n
  {
    if n == 0 then Some(([], s))
    else if |s| < 3 then None
    else
      var size := Size16(s[1], s[2]);
      if size > MAX_BODY || |s| < 3 + size then None
      else match ParseSlots(s[3 + size..], n - 1)
        case None => None
        case Some(r) => Some(([Slot(s[0], s[3..3 + size])] + r.0, r.1))
  }

  function Prepend(done: seq<Slot>, r: Option<(seq<Slot>, Bytes)>): Option<(seq<Slot>, Bytes)> {
    match r
    case None => None
    case Some(r) => Some((done + r.0, r.1))
  }

  /** The header whose magic has already been read, and the payload bytes after it. */
  function Parse(s: Bytes): (r: Option<(Parsed, Bytes)>)
    ensures r.Some? ==> |r.value.1| < |s|
  {
    if |s| < NONCE + 1 || s[NONCE] < 1 || s[NONCE] > MAX_SLOTS then None
    else match ParseSlots(s[NONCE + 1..], s[NONCE])
      case None => None
      case Some(r) =>
        if |r.1| < MAC then None
        else Some((Parsed(s[..NONCE], r.0, r.1[..MAC]), r.1[MAC..]))
  }

  lemma TwoBytes(n: nat)
    ensures BigEndian(n, 2) == [n / 256 % 256, n % 256]
  {
    assert BigEndian(n / 256, 1) == BigEndian(n / 256 / 256, 0) + [n / 256 % 256];
  }

  lemma {:induction false} ParsePrintedSlots(slots: seq<Slot>, rest: Bytes)
    requires forall s :: s in slots ==> |s.body| <= MAX_BODY
    ensures ParseSlots(PrintSlots(slots) + rest, |slots|) == Some((slots, rest))
  {
    if slots == [] {
      assert PrintSlots(slots) + rest == rest;
    } else {
      ParsePrintedSlots(slots[1..], rest);
      ParseOneSlot(slots[0], PrintSlots(slots[1..]) + rest, |slots| - 1);
      Assoc(PrintSlot(slots[0]), PrintSlots(slots[1..]), rest);
      assert slots == [slots[0]] + slots[1..];
    }
  }

  lemma ParseOneSlot(x: Slot, tail: Bytes, n: nat)
    requires |x.body| <= MAX_BODY
    ensures ParseSlots(PrintSlot(x) + tail, n + 1)
         == Prepend([x], ParseSlots(tail, n))
  {
    var s, size := PrintSlot(x) + tail, |x.body|;
    TwoBytes(size);
    assert Size16(s[1], s[2]) == size;
    assert s[3..3 + size] == x.body;
    assert s[3 + size..] == tail;
  }

  /** Reading back what was printed gives the same header and leaves the reader at the payload. */
  lemma ParsePrinted(h: Parsed, payload: Bytes)
    requires Readable(h)
    ensures |Print(h)| > 8 && Print(h)[..8] == MAGIC_V2
    ensures Parse((Print(h) + payload)[8..]) == Some((h, payload))
  {
    hide PrintSlots, ParseSlots;
    var s, body := (Print(h) + payload)[8..], PrintSlots(h.slots);
    assert s == h.nonce + [|h.slots|] + body + h.mac + payload;
    ParsePrintedSlots(h.slots, h.mac + payload);
    assert s[..NONCE] == h.nonce;
    assert s[NONCE + 1..] == body + (h.mac + payload);
    assert (h.mac + payload)[..MAC] == h.mac && (h.mac + payload)[MAC..] == payload;
  }

  lemma {:induction false} PrintParsedSlots(s: Bytes, n: nat)
    requires ParseSlots(s, n).Some?
    ensures var r := ParseSlots(s, n).value;
            && PrintSlots(r.0) + r.1 == s
            && forall x :: x in r.0 ==> |x.body| <= MAX_BODY
    decreases n
  {
    hide PrintSlot;
    if n > 0 {
      var size := Size16(s[1], s[2]);
      PrintParsedSlots(s[3 + size..], n - 1);
      var x, r := Slot(s[0], s[3..3 + size]), ParseSlots(s[3 + size..], n - 1).value;
      PrintOneParsed(s);
      assert ([x] + r.0)[1..] == r.0;
      Assoc(PrintSlot(x), PrintSlots(r.0), r.1);
    }
  }

  lemma PrintOneParsed(s: Bytes)
    requires |s| >= 3 && |s| >= 3 + Size16(s[1], s[2])
    ensures var size := Size16(s[1], s[2]);
            PrintSlot(Slot(s[0], s[3..3 + size])) + s[3 + size..] == s
  {
    var size := Size16(s[1], s[2]);
    SplitSize(s[1], s[2]);
    assert BigEndian(size, 2) == [s[1], s[2]];
  }

  lemma SplitSize(high: Byte, low: Byte)
    ensures BigEndian(Size16(high, low), 2) == [high, low]
  {
    var size := Size16(high, low);
    TwoBytes(size);
    assert size / 256 == high && size % 256 == low;
  }

  /** Printing an accepted header reproduces exactly the bytes that were read. */
  lemma PrintParsed(s: Bytes)
    requires Parse(s).Some?
    ensures var (h, payload) := Parse(s).value;
            && Readable(h)
            && MAGIC_V2 + s == Print(h) + payload
  {
    hide PrintSlots, ParseSlots;
    var (h, payload) := Parse(s).value;
    PrintParsedSlots(s[NONCE + 1..], s[NONCE]);
    var front, body := MAGIC_V2 + h.nonce + [s[NONCE]], PrintSlots(h.slots);
    assert s[NONCE + 1..] == body + (h.mac + payload);
    assert MAGIC_V2 + s == front + s[NONCE + 1..];
    Reassociate(front, body, h.mac, payload);
    PrintIs(h);
  }

  lemma PrintIs(h: Parsed)
    requires |h.slots| <= MAX_SLOTS
    ensures Print(h) == MAGIC_V2 + h.nonce + [|h.slots|] + PrintSlots(h.slots) + h.mac
  {
  }

  lemma Reassociate(a: Bytes, b: Bytes, m: Bytes, p: Bytes)
    ensures a + (b + (m + p)) == a + b + m + p
  {
    Assoc(b, m, p);
    Assoc(a, b + m, p);
    Assoc(a, b, m);
  }

  // ----- the readers

  /** One turn of the slot loop: type, length and body, or nothing when the stream is cut short
      or the body too long. */
  method ReadSlot(br: BufReader, ghost n: nat) returns (r: Option<Slot>)
    requires br.size > 0 && n > 0
    modifies br, br.src
    ensures r.Some? ==> |r.value.body| <= MAX_BODY && old(br.Contents()) == PrintSlot(r.value) + br.Contents()
    ensures r.None? ==> ParseSlots(old(br.Contents()), n).None?
  {
    ghost var left := br.Contents();
    var head, headStatus := br.ReadFull(3);
    if !headStatus.Complete? {
      return None;
    }
    assert left[0] == head[0] && left[1] == head[1] && left[2] == head[2];
    var size := Size16(head[1], head[2]);
    if size > MAX_BODY {
      return None;
    }
    var body, bodyStatus := br.ReadFull(size);
    if !bodyStatus.Complete? {
      return None;
    }
    SplitSize(head[1], head[2]);
    assert head == [head[0]] + BigEndian(size, 2);
    Assoc(head, body, br.Contents());
    return Some(Slot(head[0], body));
  }

  /** The structural part of `unlockV2`: nonce, slots and MAC. */
  method ReadHeader(br: BufReader) returns (r: Option<Parsed>)
    requires br.size > 0
    modifies br, br.src
    ensures r.Some? <==> Parse(old(br.Contents())).Some?
    ensures r.Some? ==> Parse(old(br.Contents())).value == (r.value, br.Contents())
  {
    ghost var all := br.Contents();
    var prefix, status := br.ReadFull(NONCE + 1);
    if !status.Complete? {
      return None;
    }
    var nonce, count := prefix[..NONCE], prefix[NONCE];
    ghost var start := br.Contents();
    assert all[..NONCE] == nonce && all[NONCE] == count && start == all[NONCE + 1..];
    if count < 1 || count > MAX_SLOTS {
      return None;
    }
    var slots: seq<Slot> := [];
    ghost var want := ParseSlots(start, count);
    PrependNothing(want);
    for i := 0 to count
      invariant |slots| == i
      invariant want == Prepend(slots, ParseSlots(br.Contents(), count - i))
    {
      var slot := ReadSlot(br, count - i);
      if slot.None? {
        return None;
      }
      ParseStep(want, slots, slot.value, br.Contents(), count - (i + 1));
      slots := slots + [slot.value];
    }
    ghost var left := br.Contents();
    assert slots + [] == slots;
    var mac, macStatus := br.ReadFull(MAC);
    if !macStatus.Complete? {
      return None;
    }
    assert left[..MAC] == mac && left[MAC..] == br.Contents();
    return Some(Parsed(nonce, slots, mac));
  }

  lemma PrependNothing(r: Option<(seq<Slot>, Bytes)>)
    ensures r == Prepend([], r)
  {
    if r.Some? {
      assert [] + r.value.0 == r.value.0;
    }
  }

  lemma ParseStep(want: Option<(seq<Slot>, Bytes)>, done: seq<Slot>, x: Slot, tail: Bytes, n: nat)
    requires |x.body| <= MAX_BODY
    requires want == Prepend(done, ParseSlots(PrintSlot(x) + tail, n + 1))
    ensures want == Prepend(done + [x], ParseSlots(tail, n))
  {
    ParseOneSlot(x, tail, n);
    if ParseSlots(tail, n).Some? {
      Assoc(done, [x], ParseSlots(tail, n).value.0);
    }
  }
}
