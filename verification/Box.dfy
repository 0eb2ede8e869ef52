/** Sealed files: `Seal`, `Open`, fast `Rewrap`, and the two header readers. */
module Box {
  import opened Prelude
  import opened Crypto
  import opened Streams
  import opened Payload
  import opened Header
  import opened Slots

  datatype SealOptions = SealOptions(recipients: seq<Bytes>, passphrases: seq<Bytes>, argon: ArgonParams)

  /** The randomness one header draws: KEM coins per recipient, a salt per passphrase. */
  datatype Coins = Coins(kem: nat -> Bytes, salt: nat -> SaltBytes)

  /** The randomness of a new file key. */
  datatype FreshKey = FreshKey(key: KeyBytes, nonce: NonceBytes)

  type KeyBytes = b: Bytes | |b| == KEY witness seq(KEY, _ => 0)
  type NonceBytes = b: Bytes | |b| == NONCE witness seq(NONCE, _ => 0)

  /** `SealOptions.validate`. */
  function Validate(o: SealOptions): Option<Error> {
    var total := |o.recipients| + |o.passphrases|;
    if total == 0 then Some(NoSlotRequested)
    else if total > MAX_SLOTS then Some(TooManySlots)
    else if |o.passphrases| > MAX_PASS_SLOTS then Some(TooManyPassphrases)
    else if exists r :: r in o.recipients && |r| != PUBLIC_KEY then Some(MalformedRecipient)
    else if |o.passphrases| > 0 && !ArgonInRange(o.argon) then Some(ArgonOutOfRange)
    else None
  }

  // ----- the header written

  predicate CanEncapsulate(c: Suite, key: Bytes, nonce: Bytes, opts: SealOptions, coins: Coins) {
    forall i :: 0 <= i < |opts.recipients| ==> FreshXWing(c, key, nonce, opts.recipients[i], coins.kem(i)).Some?
  }

  function FreshRecipients(c: Suite, key: Bytes, nonce: Bytes, opts: SealOptions, coins: Coins): seq<Slot>
    requires CanEncapsulate(c, key, nonce, opts, coins)
  {
    seq(|opts.recipients|, i requires 0 <= i < |opts.recipients| =>
      FreshXWing(c, key, nonce, opts.recipients[i], coins.kem(i)).value)
  }

  function FreshPassphrases(c: Suite, key: Bytes, nonce: Bytes, opts: SealOptions, coins: Coins): seq<Slot> {
    seq(|opts.passphrases|, i requires 0 <= i < |opts.passphrases| =>
      FreshPass(c, key, nonce, opts.passphrases[i], opts.argon, coins.salt(i)))
  }

  /** The slots made for the recipients and then the passphrases of `opts`. */
  function FreshSlots(c: Suite, key: Bytes, nonce: Bytes, opts: SealOptions, coins: Coins): seq<Slot>
    requires CanEncapsulate(c, key, nonce, opts, coins)
  {
    FreshRecipients(c, key, nonce, opts, coins) + FreshPassphrases(c, key, nonce, opts, coins)
  }

  function MacOf(c: Suite, key: Bytes, nonce: Bytes, slots: seq<Slot>): (m: Bytes)
    ensures |m| == MAC
  {
    Hmac(c, Hkdf(c, key, nonce, HeaderMac), PrintUnsigned(nonce, slots))
  }

  /** The header over these slots with its MAC under the file key. */
  function Signed(c: Suite, key: Bytes, nonce: Bytes, slots: seq<Slot>): Parsed {
    Parsed(nonce, slots, MacOf(c, key, nonce, slots))
  }

  lemma {:induction false} PrintSlotsAppend(a: seq<Slot>, b: seq<Slot>)
    ensures PrintSlots(a + b) == PrintSlots(a) + PrintSlots(b)
  {
    if a == [] {
      assert a + b == b;
    } else {
      PrintSlotsAppend(a[1..], b);
      assert (a + b)[1..] == a[1..] + b;
      Assoc(PrintSlot(a[0]), PrintSlots(a[1..]), PrintSlots(b));
    }
  }

  /** Printing slots i to the end: the next one and then the others. */
  lemma PrintSlotsFrom(slots: seq<Slot>, i: nat, hdr: Bytes)
    requires i < |slots|
    ensures hdr + PrintSlots(slots[i..]) == hdr + PrintSlot(slots[i]) + PrintSlots(slots[i + 1..])
  {
    assert slots[i..][1..] == slots[i + 1..];
    Assoc(hdr, PrintSlot(slots[i]), PrintSlots(slots[i + 1..]));
  }

  method PrintKept(front: Bytes, kept: seq<Slot>) returns (hdr: Bytes)
    ensures hdr == front + PrintSlots(kept)
  {
    hdr := front;
    for i := 0 to |kept|
      invariant front + PrintSlots(kept) == hdr + PrintSlots(kept[i..])
    {
      PrintSlotsFrom(kept, i, hdr);
      hdr := hdr + PrintSlot(kept[i]);
    }
  }

  method PrintRecipients(c: Suite, front: Bytes, key: Bytes, nonce: Bytes, opts: SealOptions, coins: Coins)
      returns (hdr: Option<Bytes>)
    ensures hdr.Some? <==> CanEncapsulate(c, key, nonce, opts, coins)
    ensures hdr.Some? ==> hdr.value == front + PrintSlots(FreshRecipients(c, key, nonce, opts, coins))
  {
    hide Lawful, FreshXWing, PrintSlot;
    var out := front;
    ghost var can := CanEncapsulate(c, key, nonce, opts, coins);
    ghost var slots := if can then FreshRecipients(c, key, nonce, opts, coins) else [];
    for i := 0 to |opts.recipients|
      invariant forall j :: 0 <= j < i ==> FreshXWing(c, key, nonce, opts.recipients[j], coins.kem(j)).Some?
      invariant can ==> front + PrintSlots(slots) == out + PrintSlots(slots[i..])
    {
      var slot := FreshXWing(c, key, nonce, opts.recipients[i], coins.kem(i));
      if slot.None? {
        return None;
      }
      if can {
        PrintSlotsFrom(slots, i, out);
      }
      out := out + PrintSlot(slot.value);
    }
    return Some(out);
  }

  method PrintPassphrases(c: Suite, front: Bytes, key: Bytes, nonce: Bytes, opts: SealOptions, coins: Coins)
      returns (hdr: Bytes)
    ensures hdr == front + PrintSlots(FreshPassphrases(c, key, nonce, opts, coins))
  {
    hide Lawful, FreshPass, PrintSlot;
    hdr := front;
    ghost var slots := FreshPassphrases(c, key, nonce, opts, coins);
    for i := 0 to |opts.passphrases|
      invariant front + PrintSlots(slots) == hdr + PrintSlots(slots[i..])
    {
      PrintSlotsFrom(slots, i, hdr);
      hdr := hdr + PrintSlot(FreshPass(c, key, nonce, opts.passphrases[i], opts.argon, coins.salt(i)));
    }
  }

  /** The bytes the MAC covers: kept slots verbatim, then fresh ones; nothing when an
      encapsulation fails. */
  method BuildHeader(c: Suite, key: Bytes, nonce: Bytes, kept: seq<Slot>, opts: SealOptions, coins: Coins)
      returns (built: Option<Bytes>)
    ensures built.Some? <==> CanEncapsulate(c, key, nonce, opts, coins)
    ensures built.Some? ==> built.value == PrintUnsigned(nonce, kept + FreshSlots(c, key, nonce, opts, coins))
  {
    hide Lawful, PrintSlots, FreshRecipients, FreshPassphrases, CanEncapsulate;
    var count := |kept| + |opts.recipients| + |opts.passphrases|;
    var front := MAGIC_V2 + nonce + [count % 256];
    var hdr := PrintKept(front, kept);
    built := PrintRecipients(c, hdr, key, nonce, opts, coins);
    if built.Some? {
      var all := PrintPassphrases(c, built.value, key, nonce, opts, coins);
      built := Some(all);
      ghost var a, b := FreshRecipients(c, key, nonce, opts, coins), FreshPassphrases(c, key, nonce, opts, coins);
      PrintSlotsAppend(a, b);
      PrintSlotsAppend(kept, a + b);
      FreshCount(c, key, nonce, opts, coins);
      Regroup(front, PrintSlots(kept), PrintSlots(a), PrintSlots(b));
    }
  }

  lemma FreshCount(c: Suite, key: Bytes, nonce: Bytes, opts: SealOptions, coins: Coins)
    requires CanEncapsulate(c, key, nonce, opts, coins)
    ensures |FreshSlots(c, key, nonce, opts, coins)| == |opts.recipients| + |opts.passphrases|
  {
  }

  lemma Regroup(a: Bytes, b: Bytes, x: Bytes, y: Bytes)
    ensures a + b + x + y == a + (b + (x + y))
  {
    Assoc(a + b, x, y);
    Assoc(a, b, x + y);
  }

  /** `writeHeaderV2`: the header, then its MAC. */
  method WriteHeader(c: Suite, dst: Sink, key: Bytes, nonce: Bytes, kept: seq<Slot>, opts: SealOptions, coins: Coins)
      returns (err: Option<Error>)
    requires !dst.failed
    modifies dst
    ensures !CanEncapsulate(c, key, nonce, opts, coins) ==>
              err == Some(EncapsulationFailed) && !dst.failed && dst.data == old(dst.data)
    ensures CanEncapsulate(c, key, nonce, opts, coins) ==>
              Delivered(old(dst.data), dst,
                Print(Signed(c, key, nonce, kept + FreshSlots(c, key, nonce, opts, coins))), err, None)
  {
    var built := BuildHeader(c, key, nonce, kept, opts, coins);
    if built.None? {
      return Some(EncapsulationFailed);
    }
    var hdr := built.value;
    var mac := Hmac(c, Hkdf(c, key, nonce, HeaderMac), hdr);
    ghost var before := dst.data;
    var ok := dst.Write(hdr);
    if !ok {
      WrotePartAfter(before, [], dst.data, hdr, mac);
      assert [] + hdr + mac == hdr + mac;
      return Some(SinkError);
    }
    ok := dst.Write(mac);
    if !ok {
      WrotePartAfter(before, hdr, dst.data, mac, []);
      assert hdr + mac + [] == hdr + mac;
      return Some(SinkError);
    }
    Assoc(before, hdr, mac);
    return None;
  }

  // ----- unlocking

  /** What unlocking a file yields; `mode` matters for v1 files only, `slots` for v2. */
  datatype Unlocked = Unlocked(key: Bytes, nonce: Bytes, version: nat, mode: Byte, slots: seq<Slot>)

  function MissingKey(slots: seq<Slot>, creds: Credentials): Error {
    if creds.identity.None? && (exists s :: s in slots && s.kind == XWING_SLOT) then NeedIdentity
    else if creds.passphrase.None? && (exists s :: s in slots && s.kind == PASS_SLOT) then NeedPassphrase
    else WrongKey
  }

  /** Unlocking a v2 file whose magic has been read, and the payload bytes left. */
  function UnlockV2(c: Suite, s: Bytes, creds: Credentials): Result<(Unlocked, Bytes), Error> {
    match Parse(s)
    case None => Err(NotSindook)
    case Some((h, payload)) =>
      match FindKey(c, h.slots, h.nonce, creds)
      case None => Err(MissingKey(h.slots, creds))
      case Some(key) =>
        if h.mac != MacOf(c, key, h.nonce, h.slots) then Err(HeaderTampered)
        else Ok((Unlocked(key, h.nonce, 2, 0, h.slots), payload))
  }

  const V1_RECIPIENT: Byte := 0x01
  const V1_PASSPHRASE: Byte := 0x02
  const V1_RECIPIENT_SIZE := 1 + KEM_CIPHERTEXT + NONCE  // mode byte included
  const V1_PASSPHRASE_SIZE := 1 + 9 + SALT + NONCE

  /** The wrap that follows a v1 header of `size` bytes. */
  function UnlockV1With(c: Suite, s: Bytes, size: nat, wrapKey: Bytes): Result<(Unlocked, Bytes), Error>
    requires NONCE < size <= |s|
  {
    if |s| < size + KEY + TAG then Err(NotSindook)
    else match WrapOpen(c, wrapKey, s[size..size + KEY + TAG], MAGIC_V1 + s[..size])
      case None => Err(WrongKey)
      case Some(key) => Ok((Unlocked(key, s[size - NONCE..size], 1, s[0], []), s[size + KEY + TAG..]))
  }

  function UnlockV1(c: Suite, s: Bytes, creds: Credentials): Result<(Unlocked, Bytes), Error> {
    if s == [] then Err(NotSindook)
    else if s[0] == V1_RECIPIENT then
      if creds.identity.None? then Err(NeedIdentity)
      else if |s| < V1_RECIPIENT_SIZE then Err(NotSindook)
      else match Decapsulate(c, creds.identity.value, s[1..1 + KEM_CIPHERTEXT])
        case None => Err(WrongKey)
        case Some(secret) =>
          UnlockV1With(c, s, V1_RECIPIENT_SIZE, Hkdf(c, secret, s[1 + KEM_CIPHERTEXT..V1_RECIPIENT_SIZE], WrapV1))
    else if s[0] == V1_PASSPHRASE then
      if creds.passphrase.None? then Err(NeedPassphrase)
      else if |s| < V1_PASSPHRASE_SIZE then Err(NotSindook)
      else if !ArgonInRange(ReadArgon(s[1..10])) then Err(ArgonOutOfRange)
      else UnlockV1With(c, s, V1_PASSPHRASE_SIZE, Argon(c, creds.passphrase.value, s[10..10 + SALT], ReadArgon(s[1..10])))
    else Err(UnknownMode)
  }

  function Unlock(c: Suite, file: Bytes, creds: Credentials): Result<(Unlocked, Bytes), Error> {
    if |file| < 8 then Err(NotSindook)
    else if file[..8] == MAGIC_V1 then UnlockV1(c, file[8..], creds)
    else if file[..8] == MAGIC_V2 then UnlockV2(c, file[8..], creds)
    else Err(NotSindook)
  }

  /** A reader's outcome agrees with the result computed from the bytes it started with. */
  ghost predicate Agrees(r: Result<Unlocked, Error>, left: Bytes, spec: Result<(Unlocked, Bytes), Error>) {
    match spec
    case Err(e) => r == Err(e)
    case Ok(u) => r == Ok(u.0) && left == u.1
  }

  method RunUnlockV2(c: Suite, br: BufReader, creds: Credentials) returns (r: Result<Unlocked, Error>)
    requires br.size > 0
    modifies br, br.src
    ensures Agrees(r, br.Contents(), UnlockV2(c, old(br.Contents()), creds))
  {
    hide Lawful, Parse, TryXWing, TryPass, MacOf;
    var parsed := ReadHeader(br);
    if parsed.None? {
      return Err(NotSindook);
    }
    var h := parsed.value;
    var sawXWing, sawPass := false, false;
    var key: Option<Bytes> := None;
    for i := 0 to |h.slots|
      invariant sawXWing <==> exists j :: 0 <= j < i && h.slots[j].kind == XWING_SLOT
      invariant sawPass <==> exists j :: 0 <= j < i && h.slots[j].kind == PASS_SLOT
      invariant FindKey(c, h.slots, h.nonce, creds) == if key.Some? then key else FindKey(c, h.slots[i..], h.nonce, creds)
    {
      var s := h.slots[i];
      assert h.slots[i..][1..] == h.slots[i + 1..];
      if s.kind == XWING_SLOT {
        sawXWing := true;
        if creds.identity.Some? && key.None? {
          key := TryXWing(c, s, h.nonce, creds.identity.value);
        }
      } else if s.kind == PASS_SLOT {
        sawPass := true;
        if creds.passphrase.Some? && key.None? {
          key := TryPass(c, s, h.nonce, creds.passphrase.value);
        }
      }
    }
    if key.None? {
      assert FindKey(c, h.slots, h.nonce, creds).None?;
      if creds.identity.None? && sawXWing {
        return Err(NeedIdentity);
      }
      if creds.passphrase.None? && sawPass {
        return Err(NeedPassphrase);
      }
      return Err(WrongKey);
    }
    if h.mac != MacOf(c, key.value, h.nonce, h.slots) {
      return Err(HeaderTampered);
    }
    return Ok(Unlocked(key.value, h.nonce, 2, 0, h.slots));
  }

  method RunUnlockV1(c: Suite, br: BufReader, creds: Credentials) returns (r: Result<Unlocked, Error>)
    requires br.size > 0
    modifies br, br.src
    ensures Agrees(r, br.Contents(), UnlockV1(c, old(br.Contents()), creds))
  {
    hide Lawful, UnlockV1With;
    ghost var all := br.Contents();
    var first, firstStatus := br.ReadFull(1);
    if !firstStatus.Complete? {
      return Err(NotSindook);
    }
    var mode := first[0];
    assert all[0] == mode;
    var header, wrapKey: Bytes := first, [];
    if mode == V1_RECIPIENT {
      if creds.identity.None? {
        return Err(NeedIdentity);
      }
      var rest, status := br.ReadFull(KEM_CIPHERTEXT + NONCE);
      if !status.Complete? {
        return Err(NotSindook);
      }
      header := header + rest;
      assert all == header + br.Contents();
      assert all[1..1 + KEM_CIPHERTEXT] == rest[..KEM_CIPHERTEXT];
      assert all[1 + KEM_CIPHERTEXT..V1_RECIPIENT_SIZE] == rest[KEM_CIPHERTEXT..];
      var secret := Decapsulate(c, creds.identity.value, rest[..KEM_CIPHERTEXT]);
      if secret.None? {
        return Err(WrongKey);
      }
      wrapKey := Hkdf(c, secret.value, rest[KEM_CIPHERTEXT..], WrapV1);
    } else if mode == V1_PASSPHRASE {
      if creds.passphrase.None? {
        return Err(NeedPassphrase);
      }
      var rest, status := br.ReadFull(9 + SALT + NONCE);
      if !status.Complete? {
        return Err(NotSindook);
      }
      header := header + rest;
      assert all == header + br.Contents();
      assert all[1..10] == rest[..9] && all[10..10 + SALT] == rest[9..9 + SALT];
      if !ArgonInRange(ReadArgon(rest[..9])) {
        return Err(ArgonOutOfRange);
      }
      wrapKey := Argon(c, creds.passphrase.value, rest[9..9 + SALT], ReadArgon(rest[..9]));
    } else {
      return Err(UnknownMode);
    }
    r := FinishV1(c, br, header, wrapKey, all);
  }

  /** The tail of `unlockV1`: the wrapped key under the header as associated data. */
  method FinishV1(c: Suite, br: BufReader, header: Bytes, wrapKey: Bytes, ghost all: Bytes) returns (r: Result<Unlocked, Error>)
    requires br.size > 0 && |header| > NONCE && all == header + br.Contents()
    modifies br, br.src
    ensures Agrees(r, br.Contents(), UnlockV1With(c, all, |header|, wrapKey))
  {
    var size := |header|;
    var nonce := header[size - NONCE..];
    ghost var left := br.Contents();
    var wrapped, status := br.ReadFull(KEY + TAG);
    assert all[..size] == header && all[size - NONCE..size] == nonce && all[0] == header[0];
    if !status.Complete? {
      return Err(NotSindook);
    }
    assert all[size..size + KEY + TAG] == wrapped && all[size + KEY + TAG..] == br.Contents();
    var key := WrapOpen(c, wrapKey, wrapped, MAGIC_V1 + header);
    if key.None? {
      return Err(WrongKey);
    }
    return Ok(Unlocked(key.value, nonce, 1, header[0], []));
  }

  method RunUnlock(c: Suite, br: BufReader, creds: Credentials) returns (r: Result<Unlocked, Error>)
    requires br.size > 0
    modifies br, br.src
    ensures Agrees(r, br.Contents(), Unlock(c, old(br.Contents()), creds))
  {
    ghost var all := br.Contents();
    var magic, status := br.ReadFull(8);
    if !status.Complete? {
      return Err(NotSindook);
    }
    assert all[..8] == magic && all[8..] == br.Contents();
    if magic == MAGIC_V1 {
      r := RunUnlockV1(c, br, creds);
    } else if magic == MAGIC_V2 {
      r := RunUnlockV2(c, br, creds);
    } else {
      r := Err(NotSindook);
    }
  }

  // ----- whole-file operations

  function PayloadKey(c: Suite, key: Bytes, nonce: Bytes): Bytes {
    Hkdf(c, key, nonce, Purpose.Payload)
  }

  /** Bytes an operation writes and the error it ends with. */
  datatype Written = Written(bytes: Bytes, err: Option<Error>)

  /** What `Seal` writes when its source ends with `ending`. */
  function SealFile(c: Suite, plain: Bytes, ending: Option<Error>, opts: SealOptions, drawn: FreshKey, coins: Coins): Written {
    if Validate(opts).Some? then Written([], Validate(opts))
    else if !CanEncapsulate(c, drawn.key, drawn.nonce, opts, coins) then Written([], Some(EncapsulationFailed))
    else
      var header := Print(Signed(c, drawn.key, drawn.nonce, FreshSlots(c, drawn.key, drawn.nonce, opts, coins)));
      Written(header + SealAll(c, PayloadKey(c, drawn.key, drawn.nonce), Plan(0, plain, ending)), SealEnd(plain, ending))
  }

  function OpenFile(c: Suite, file: Bytes, ending: Option<Error>, creds: Credentials): Opened {
    match Unlock(c, file, creds)
    case Err(e) => Opened([], Some(e))
    case Ok((u, payload)) => OpenAll(c, PayloadKey(c, u.key, u.nonce), payload, ending)
  }

  /** A new header over the old payload bytes. */
  function FastRewrap(c: Suite, file: Bytes, ending: Option<Error>, creds: Credentials, opts: SealOptions, coins: Coins): Written {
    if Validate(opts).Some? then Written([], Validate(opts))
    else match Unlock(c, file, creds)
      case Err(e) => Written([], Some(e))
      case Ok((u, payload)) =>
        if !CanEncapsulate(c, u.key, u.nonce, opts, coins) then Written([], Some(EncapsulationFailed))
        else Written(Print(Signed(c, u.key, u.nonce, FreshSlots(c, u.key, u.nonce, opts, coins))) + payload, ending)
  }

  lemma DeliveredThen(before: Bytes, dst: Sink, mid: Bytes, head: Bytes, tail: Bytes, err: Option<Error>, meant: Option<Error>)
    requires mid == before + head && Delivered(mid, dst, tail, err, meant)
    ensures Delivered(before, dst, head + tail, err, meant)
  {
    if dst.failed {
      WrotePartAfter(before, head, dst.data, tail, []);
      assert head + tail + [] == head + tail;
    } else {
      Assoc(before, head, tail);
    }
  }

  lemma DeliveredPart(before: Bytes, dst: Sink, head: Bytes, tail: Bytes, err: Option<Error>, meant: Option<Error>, meant': Option<Error>)
    requires dst.failed && Delivered(before, dst, head, err, meant)
    ensures Delivered(before, dst, head + tail, err, meant')
  {
    WrotePartAfter(before, [], dst.data, head, tail);
    assert before + [] == before && [] + head + tail == head + tail;
  }

  method Seal(c: Suite, dst: Sink, src: Source, opts: SealOptions, drawn: FreshKey, coins: Coins) returns (err: Option<Error>)
    requires !dst.failed
    modifies dst, src
    ensures var w := SealFile(c, old(src.rest), src.ending, opts, drawn, coins);
            Delivered(old(dst.data), dst, w.bytes, err, w.err)
  {
    ghost var before := dst.data;
    err := Validate(opts);
    if err.Some? {
      return;
    }
    var kept: seq<Slot> := [];
    err := WriteHeader(c, dst, drawn.key, drawn.nonce, kept, opts, coins);
    if !CanEncapsulate(c, drawn.key, drawn.nonce, opts, coins) {
      return;
    }
    ghost var slots := FreshSlots(c, drawn.key, drawn.nonce, opts, coins);
    assert kept + slots == slots;
    ghost var head, mid := Print(Signed(c, drawn.key, drawn.nonce, slots)), dst.data;
    var payloadKey := PayloadKey(c, drawn.key, drawn.nonce);
    ghost var tail, ending := SealAll(c, payloadKey, Plan(0, src.rest, src.ending)), SealEnd(src.rest, src.ending);
    if err.Some? {
      DeliveredPart(before, dst, head, tail, err, None, ending);
      return;
    }
    ghost var nonces;
    err, nonces := SealPayload(c, dst, src, payloadKey);
    DeliveredThen(before, dst, mid, head, tail, err, ending);
  }

  method Open(c: Suite, dst: Sink, src: Source, creds: Credentials) returns (err: Option<Error>)
    requires !dst.failed
    modifies dst, src
    ensures var o := OpenFile(c, old(src.rest), src.ending, creds);
            Delivered(old(dst.data), dst, o.plain, err, o.err)
  {
    var br := new BufReader(src, CHUNK + TAG);
    assert br.Contents() == src.rest;
    var u := RunUnlock(c, br, creds);
    if u.Err? {
      assert dst.data == old(dst.data) + [];
      return Some(u.error);
    }
    err := OpenPayload(c, dst, br, PayloadKey(c, u.value.key, u.value.nonce));
  }

  /** `Rewrap` with deep off. */
  method RewrapFast(c: Suite, dst: Sink, src: Source, creds: Credentials, opts: SealOptions, coins: Coins)
      returns (err: Option<Error>)
    requires !dst.failed
    modifies dst, src
    ensures var w := FastRewrap(c, old(src.rest), src.ending, creds, opts, coins);
            Delivered(old(dst.data), dst, w.bytes, err, w.err)
  {
    ghost var before := dst.data;
    err := Validate(opts);
    if err.Some? {
      return;
    }
    var br := new BufReader(src, CHUNK + TAG);
    assert br.Contents() == src.rest;
    var u := RunUnlock(c, br, creds);
    if u.Err? {
      return Some(u.error);
    }
    err := RewriteWith(c, dst, br, u.value, [], opts, coins);
    ghost var key, nonce := u.value.key, u.value.nonce;
    assert CanEncapsulate(c, key, nonce, opts, coins) ==>
      [] + FreshSlots(c, key, nonce, opts, coins) == FreshSlots(c, key, nonce, opts, coins);
  }

  /** The common ending of fast rewraps and edits: the new header and the payload bytes as they are. */
  function Rewritten(c: Suite, u: Unlocked, payload: Bytes, ending: Option<Error>, kept: seq<Slot>, opts: SealOptions, coins: Coins): Written {
    if !CanEncapsulate(c, u.key, u.nonce, opts, coins) then Written([], Some(EncapsulationFailed))
    else Written(Print(Signed(c, u.key, u.nonce, kept + FreshSlots(c, u.key, u.nonce, opts, coins))) + payload, ending)
  }

  method RewriteWith(c: Suite, dst: Sink, br: BufReader, u: Unlocked, kept: seq<Slot>, opts: SealOptions, coins: Coins)
      returns (err: Option<Error>)
    requires !dst.failed && br.size > 0
    modifies dst, br, br.src
    ensures var w := Rewritten(c, u, old(br.Contents()), br.src.ending, kept, opts, coins);
            Delivered(old(dst.data), dst, w.bytes, err, w.err)
  {
    ghost var before, payload, ending := dst.data, br.Contents(), br.src.ending;
    err := WriteHeader(c, dst, u.key, u.nonce, kept, opts, coins);
    if !CanEncapsulate(c, u.key, u.nonce, opts, coins) {
      return;
    }
    ghost var head, mid := Print(Signed(c, u.key, u.nonce, kept + FreshSlots(c, u.key, u.nonce, opts, coins))), dst.data;
    if err.Some? {
      DeliveredPart(before, dst, head, payload, err, None, ending);
      return;
    }
    assert br.Contents() == payload;
    err := Copy(dst, br);
    DeliveredThen(before, dst, mid, head, payload, err, ending);
  }
}
