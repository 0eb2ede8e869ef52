/** `Inspect`: describing a header without credentials, and its agreement with the unlocker. */
module Inspection {
  import opened Prelude
  import opened Crypto
  import opened Streams
  import opened Header
  import opened Slots
  import opened Box
  import opened Rewraps

  datatype SlotInfo = SlotInfo(kind: Byte, size: nat, argon: Option<ArgonParams>)

  datatype Info = Info(version: nat, headerSize: nat, slots: seq<SlotInfo>)

  /** What a listing shows of a slot: the Argon2id parameters exactly when `trySlotPass` would use them. */
  function Describe(s: Slot): SlotInfo {
    SlotInfo(s.kind, |s.body|, if s.kind == PASS_SLOT && RunsKdf(s) then Some(ReadArgon(s.body)) else None)
  }

  function DescribeAll(slots: seq<Slot>): seq<SlotInfo> {
    seq(|slots|, i requires 0 <= i < |slots| => Describe(slots[i]))
  }

  /** Agreement with the unlocker on everything after the v2 magic: accepted exactly when the
      structural parse completes, with the same slots and the number of bytes consumed. */
  ghost predicate AgreesV2(r: Result<Info, Error>, s: Bytes) {
    match Parse(s)
    case None => r == Err(NotSindook)
    case Some((h, payload)) => r == Ok(Info(2, 8 + |s| - |payload|, DescribeAll(h.slots)))
  }

  method InspectV2(br: BufReader) returns (r: Result<Info, Error>)
    requires br.size > 0
    modifies br, br.src
    ensures AgreesV2(r, old(br.Contents()))
  {
    hide PrintSlot, PrintSlots, Describe, DescribeAll, ReadArgon, ArgonInRange, Listing, ParseSlots;
    ghost var all := br.Contents();
    var prefix, status := br.ReadFull(NONCE + 1);
    if !status.Complete? {
      return Err(NotSindook);
    }
    var count := prefix[NONCE];
    ghost var start := br.Contents();
    assert all[NONCE] == count && start == all[NONCE + 1..];
    if count < 1 || count > MAX_SLOTS {
      return Err(NotSindook);
    }
    var headerSize, infos := 8 + NONCE + 1, [];
    ghost var slots, want: Option<(seq<Slot>, Bytes)> := [], ParseSlots(start, count);
    StartListing(want, start, count);
    for i := 0 to count
      invariant Listing(want, slots, infos, br.Contents(), count - i)
      invariant headerSize + |br.Contents()| == 8 + |all|
    {
      ghost var before := br.Contents();
      var slot := ReadSlot(br, count - i);
      if slot.None? {
        EndListing(want, slots, infos, before, count - i);
        return Err(NotSindook);
      }
      var s := slot.value;
      PrintSlotSize(s);
      var info := SlotInfo(s.kind, |s.body|, None);
      if s.kind == PASS_SLOT && |s.body| == PASS_BODY {
        var p := ReadArgon(s.body);
        if ArgonInRange(p) {
          info := info.(argon := Some(p));
        }
      }
      DescribeIs(s);
      ListOne(want, slots, infos, s, info, br.Contents(), count - (i + 1));
      infos, slots := infos + [info], slots + [s];
      headerSize := headerSize + 3 + |s.body|;
    }
    ghost var left := br.Contents();
    EndListing(want, slots, infos, left, 0);
    var mac, macStatus := br.ReadFull(MAC);
    if !macStatus.Complete? {
      return Err(NotSindook);
    }
    assert left[MAC..] == br.Contents();
    headerSize := headerSize + MAC;
    return Ok(Info(2, headerSize, infos));
  }

  /** Midway through the slot loop: what has been listed, and that n slots are to come. */
  ghost predicate Listing(want: Option<(seq<Slot>, Bytes)>, slots: seq<Slot>, infos: seq<SlotInfo>, left: Bytes, n: nat) {
    infos == DescribeAll(slots) && want == Prepend(slots, ParseSlots(left, n))
  }

  lemma StartListing(want: Option<(seq<Slot>, Bytes)>, start: Bytes, n: nat)
    requires want == ParseSlots(start, n)
    ensures Listing(want, [], [], start, n)
  {
    PrependNothing(want);
  }

  lemma ListOne(want: Option<(seq<Slot>, Bytes)>, slots: seq<Slot>, infos: seq<SlotInfo>, s: Slot, info: SlotInfo, tail: Bytes, n: nat)
    requires Listing(want, slots, infos, PrintSlot(s) + tail, n + 1) && |s.body| <= MAX_BODY && info == Describe(s)
    ensures Listing(want, slots + [s], infos + [info], tail, n)
  {
    hide Describe, PrintSlot, ParseSlots;
    ParseStep(want, slots, s, tail, n);
  }

  lemma EndListing(want: Option<(seq<Slot>, Bytes)>, slots: seq<Slot>, infos: seq<SlotInfo>, left: Bytes, n: nat)
    requires Listing(want, slots, infos, left, n)
    ensures n > 0 && ParseSlots(left, n).None? ==> want.None?
    ensures n == 0 ==> want == Some((slots, left)) && infos == DescribeAll(slots)
  {
    assert slots + [] == slots;
  }

  lemma PrintSlotSize(s: Slot)
    ensures |PrintSlot(s)| == 3 + |s.body|
  {
  }

  lemma DescribeIs(s: Slot)
    ensures Describe(s) == SlotInfo(s.kind, |s.body|,
              if s.kind == PASS_SLOT && |s.body| == PASS_BODY && ArgonInRange(ReadArgon(s.body)) then Some(ReadArgon(s.body)) else None)
  {
  }

  /** What `inspectV1` makes of the bytes after the v1 magic. */
  function DescribeV1(s: Bytes): Result<Info, Error> {
    if s == [] then Err(NotSindook)
    else if s[0] == V1_RECIPIENT then
      if |s| < V1_RECIPIENT_SIZE + KEY + TAG then Err(NotSindook)
      else Ok(Info(1, 8 + V1_RECIPIENT_SIZE + KEY + TAG, [SlotInfo(s[0], V1_RECIPIENT_SIZE - 1 + KEY + TAG, None)]))
    else if s[0] == V1_PASSPHRASE then
      if |s| < V1_PASSPHRASE_SIZE then Err(NotSindook)
      else if !ArgonInRange(ReadArgon(s[1..10])) then Err(ArgonOutOfRange)
      else if |s| < V1_PASSPHRASE_SIZE + KEY + TAG then Err(NotSindook)
      else Ok(Info(1, 8 + V1_PASSPHRASE_SIZE + KEY + TAG,
                   [SlotInfo(s[0], V1_PASSPHRASE_SIZE - 1 + KEY + TAG, Some(ReadArgon(s[1..10])))]))
    else Err(NotSindook)
  }

  method InspectV1(br: BufReader) returns (r: Result<Info, Error>)
    requires br.size > 0
    modifies br, br.src
    ensures r == DescribeV1(old(br.Contents()))
  {
    ghost var all := br.Contents();
    var first, firstStatus := br.ReadFull(1);
    if !firstStatus.Complete? {
      return Err(NotSindook);
    }
    var mode := first[0];
    assert all[0] == mode;
    var argon: Option<ArgonParams>, bodyLen := None, 0;
    if mode == V1_RECIPIENT {
      bodyLen := KEM_CIPHERTEXT + NONCE;
      var body, status := br.ReadFull(bodyLen);
      if !status.Complete? {
        return Err(NotSindook);
      }
    } else if mode == V1_PASSPHRASE {
      bodyLen := 9 + SALT + NONCE;
      var body, status := br.ReadFull(bodyLen);
      if !status.Complete? {
        return Err(NotSindook);
      }
      assert all == first + body + br.Contents();
      assert all[1..10] == body[..9];
      var p := ReadArgon(body);
      assert body[0..4] == body[..9][0..4] && body[4..8] == body[..9][4..8];
      if !ArgonInRange(p) {
        return Err(ArgonOutOfRange);
      }
      argon := Some(p);
    } else {
      return Err(NotSindook);
    }
    var wrapped, status := br.ReadFull(KEY + TAG);
    if !status.Complete? {
      return Err(NotSindook);
    }
    var size := bodyLen + |wrapped|;
    return Ok(Info(1, 8 + 1 + size, [SlotInfo(mode, size, argon)]));
  }

  function DescribeFile(file: Bytes): Result<Info, Error> {
    if |file| < 8 then Err(NotSindook)
    else if file[..8] == MAGIC_V1 then DescribeV1(file[8..])
    else if file[..8] == MAGIC_V2 then
      match Parse(file[8..])
      case None => Err(NotSindook)
      case Some((h, payload)) => Ok(Info(2, |file| - |payload|, DescribeAll(h.slots)))
    else Err(NotSindook)
  }

  method Inspect(src: Source) returns (r: Result<Info, Error>)
    modifies src
    ensures r == DescribeFile(old(src.rest))
  {
    hide Parse, DescribeV1, DescribeAll;
    var br := new BufReader(src, 4096);
    ghost var all := src.rest;
    assert br.Contents() == all;
    var magic, status := br.ReadFull(8);
    if !status.Complete? {
      return Err(NotSindook);
    }
    assert all[..8] == magic && all[8..] == br.Contents();
    if magic == MAGIC_V1 {
      r := InspectV1(br);
    } else if magic == MAGIC_V2 {
      r := InspectV2(br);
    } else {
      r := Err(NotSindook);
    }
  }

  // ----- agreement with the unlocker

  /** Whoever unlocks a file finds its payload at the offset Inspect reports, and the slots it lists
      are the file's, a v1 file having one. */
  lemma InspectLocatesPayload(c: Suite, file: Bytes, creds: Credentials)
    requires Unlock(c, file, creds).Ok?
    ensures var (u, payload) := Unlock(c, file, creds).value;
            && DescribeFile(file).Ok?
            && DescribeFile(file).value.version == u.version
            && 0 <= DescribeFile(file).value.headerSize <= |file|
            && payload == file[DescribeFile(file).value.headerSize..]
            && var slots := DescribeFile(file).value.slots;
               && (u.version == 2 ==> |slots| == |u.slots| && forall i :: 0 <= i < |slots| ==>
                     slots[i].kind == u.slots[i].kind && slots[i].size == |u.slots[i].body|)
               && (u.version == 2 ==> slots == DescribeAll(u.slots))
               && (u.version == 1 ==> |slots| == 1 && slots[0].kind == u.mode && slots[0].size == DescribeFile(file).value.headerSize - 9)
  {
    hide Lawful, ParseSlots, FindKey, Decapsulate, DescribeAll, PrintSlots;
    var (u, payload) := Unlock(c, file, creds).value;
    if file[..8] == MAGIC_V2 {
      assert file[..8] != MAGIC_V1 by { assert MAGIC_V1[7] != MAGIC_V2[7]; }
      PrintParsed(file[8..]);
      var h := Parse(file[8..]).value.0;
      assert file == file[..8] + file[8..];
      assert file[|Print(h)|..] == payload;
      DescribedOneByOne(u.slots);
    }
  }

  lemma DescribedOneByOne(slots: seq<Slot>)
    ensures var infos := DescribeAll(slots);
            && |infos| == |slots|
            && forall i :: 0 <= i < |infos| ==> infos[i].kind == slots[i].kind && infos[i].size == |slots[i].body|
  {
  }

  /** On the files with the v2 magic, Inspect refuses exactly those whose header the unlocker
      refuses whatever the credentials. */
  lemma InspectRefusesIff(c: Suite, file: Bytes)
    requires |file| >= 8 && file[..8] == MAGIC_V2
    ensures DescribeFile(file).Err? <==> forall creds :: Unlock(c, file, creds) == Err(NotSindook)
  {
    hide Lawful, ParseSlots, DescribeAll;
    assert file[..8] != MAGIC_V1 by { assert MAGIC_V1[7] != MAGIC_V2[7]; }
    if DescribeFile(file).Ok? {
      assert Unlock(c, file, Credentials(None, None)) != Err(NotSindook);
    }
  }

  /** The Argon2id parameters of a passphrase slot are withheld from a listing exactly when no
      passphrase opens the slot under any lawful choice of primitives. */
  lemma ArgonShownIff(slots: seq<Slot>, i: nat, nonce: Bytes)
    requires i < |slots| && slots[i].kind == PASS_SLOT
    ensures DescribeAll(slots)[i].argon.None? <==> forall c: Suite, pass: Bytes :: TryPass(c, slots[i], nonce, pass).None?
    ensures DescribeAll(slots)[i].argon.Some? <==> RunsKdf(slots[i])
  {
    hide Lawful;
    if DescribeAll(slots)[i].argon.Some? {
      var c, pass := OpenableUnder(slots[i], nonce);
    }
  }

  /** A suite and a passphrase that open a slot on which the key derivation runs: one whose tag is the
      slot's. */
  lemma OpenableUnder(s: Slot, nonce: Bytes) returns (c: Suite, pass: Bytes)
    requires RunsKdf(s)
    ensures TryPass(c, s, nonce, pass).Some?
  {
    hide Lawful;
    var wrapped := s.body[PASS_PUBLIC..];
    var tag := wrapped[KEY..];
    ToyIsLawful(tag);
    c, pass := Toy(tag), [];
    assert wrapped[|wrapped| - TAG..] == tag;
  }

  /** The parameters shown for a slot made by `Seal` are those it was made with. */
  lemma ArgonShownIsUsed(c: Suite, fileKey: Bytes, nonce: Bytes, pass: Bytes, p: ArgonParams, salt: SaltBytes)
    requires |fileKey| == KEY && ArgonInRange(p)
    ensures Describe(FreshPass(c, fileKey, nonce, pass, p, salt)).argon == Some(p)
  {
    hide Lawful, ArgonInRange, ReadArgon, PrintArgon;
    var s := FreshPass(c, fileKey, nonce, pass, p, salt);
    ReadPrintedArgon(p, s.body[9..]);
    assert s.body == PrintArgon(p) + s.body[9..];
  }
}
