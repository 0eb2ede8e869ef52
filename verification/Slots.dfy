/** Key slots: how a file key is wrapped for a recipient or a passphrase, and how a
    credential gets it back. */
module Slots {
  import opened Prelude
  import opened Crypto
  import opened Header

  const XWING_BODY := KEM_CIPHERTEXT + KEY + TAG
  const PASS_PUBLIC := 9 + SALT
  const PASS_BODY := PASS_PUBLIC + KEY + TAG

  const MAX_ARGON_TIME := 64
  const MAX_ARGON_MEMORY := 1024 * 1024
  const MAX_ARGON_THREADS := 64

  const DEFAULT_ARGON := ArgonParams(3, 64 * 1024, 4)
  const NO_ARGON := ArgonParams(0, 0, 0)

  /** `Argon2idParams.validate`; the caps keep `8 * threads` far from a uint32 overflow. */
  predicate ArgonInRange(p: ArgonParams) {
    && 1 <= p.time <= MAX_ARGON_TIME
    && 8 * p.threads <= p.memoryKiB <= MAX_ARGON_MEMORY
    && 1 <= p.threads <= MAX_ARGON_THREADS
  }

  /** What a caller holds; absent parts are the source's nil arguments. */
  datatype Credentials = Credentials(identity: Option<Bytes>, passphrase: Option<Bytes>)

  type SaltBytes = b: Bytes | |b| == SALT witness seq(SALT, _ => 0)

  const ZERO_NONCE: Bytes := [0, 0, 0, 0, 0, 0, 0, 0, 0, 0, 0, 0]

  function WrapSeal(c: Suite, wrapKey: Bytes, fileKey: Bytes, aad: Bytes): (x: Bytes)
    ensures |x| == |fileKey| + TAG
  {
    Seal(c, wrapKey, ZERO_NONCE, fileKey, aad)
  }

  function WrapOpen(c: Suite, wrapKey: Bytes, wrapped: Bytes, aad: Bytes): (r: Option<Bytes>)
    ensures r.Some? ==> |wrapped| == |r.value| + TAG
  {
    Open(c, wrapKey, ZERO_NONCE, wrapped, aad)
  }

  /** Binds a wrap to this file and to the slot's own public part. */
  function SlotAad(nonce: Bytes, kind: Byte, public: Bytes): Bytes {
    MAGIC_V2 + nonce + [kind] + public
  }

  function XWingWrapKey(c: Suite, secret: Bytes, nonce: Bytes): Bytes {
    Hkdf(c, secret, nonce, WrapV2)
  }

  function TryXWing(c: Suite, s: Slot, nonce: Bytes, seed: Bytes): (k: Option<Bytes>)
    ensures k.Some? ==> |k.value| == KEY
  {
    if |s.body| != XWING_BODY then None
    else
      var ct := s.body[..KEM_CIPHERTEXT];
      match Decapsulate(c, seed, ct)
      case None => None
      case Some(secret) =>
        WrapOpen(c, XWingWrapKey(c, secret, nonce), s.body[KEM_CIPHERTEXT..], SlotAad(nonce, XWING_SLOT, ct))
  }

  function ReadArgon(b: Bytes): ArgonParams
    requires |b| >= 9
  {
    ArgonParams(FromBigEndian(b[0..4]), FromBigEndian(b[4..8]), b[8])
  }

  function PrintArgon(p: ArgonParams): (b: Bytes)
    ensures |b| == 9
  {
    BigEndian(p.time, 4) + BigEndian(p.memoryKiB, 4) + [p.threads % 256]
  }

  lemma ReadPrintedArgon(p: ArgonParams, tail: Bytes)
    requires ArgonInRange(p)
    ensures ReadArgon(PrintArgon(p) + tail) == p
  {
    var b := PrintArgon(p) + tail;
    assert b[0..4] == BigEndian(p.time, 4) && b[4..8] == BigEndian(p.memoryKiB, 4);
    assert Pow256(4) == 0x1_0000_0000;
    BigEndianInverse(p.time, 4);
    BigEndianInverse(p.memoryKiB, 4);
  }

  /** Whether `trySlotPass` reaches the key derivation on this slot. */
  predicate RunsKdf(s: Slot) {
    |s.body| == PASS_BODY && ArgonInRange(ReadArgon(s.body))
  }

  function TryPass(c: Suite, s: Slot, nonce: Bytes, pass: Bytes): (k: Option<Bytes>)
    ensures k.Some? ==> |k.value| == KEY
  {
    if !RunsKdf(s) then None
    else
      var public := s.body[..PASS_PUBLIC];
      var wrapKey := Argon(c, pass, public[9..], ReadArgon(s.body));
      WrapOpen(c, wrapKey, s.body[PASS_PUBLIC..], SlotAad(nonce, PASS_SLOT, public))
  }

  /** The file key one slot gives to these credentials. */
  function SlotKey(c: Suite, s: Slot, nonce: Bytes, creds: Credentials): (k: Option<Bytes>)
    ensures k.Some? ==> |k.value| == KEY
  {
    if s.kind == XWING_SLOT && creds.identity.Some? then TryXWing(c, s, nonce, creds.identity.value)
    else if s.kind == PASS_SLOT && creds.passphrase.Some? then TryPass(c, s, nonce, creds.passphrase.value)
    else None
  }

  /** The file key from the first slot that opens. */
  function FindKey(c: Suite, slots: seq<Slot>, nonce: Bytes, creds: Credentials): (k: Option<Bytes>)
    ensures k.Some? ==> |k.value| == KEY
  {
    if slots == [] then None
    else
      var k := SlotKey(c, slots[0], nonce, creds);
      if k.Some? then k else FindKey(c, slots[1..], nonce, creds)
  }

  /** What comes out is what the first slot that opens gives. */
  lemma {:induction false} FirstThatOpens(c: Suite, slots: seq<Slot>, nonce: Bytes, creds: Credentials, i: nat)
    requires i < |slots| && SlotKey(c, slots[i], nonce, creds).Some?
    requires forall j :: 0 <= j < i ==> SlotKey(c, slots[j], nonce, creds).None?
    ensures FindKey(c, slots, nonce, creds) == SlotKey(c, slots[i], nonce, creds)
  {
    hide SlotKey;
    if i > 0 {
      FirstThatOpens(c, slots[1..], nonce, creds, i - 1);
    }
  }

  // ----- fresh slots

  function FreshXWing(c: Suite, fileKey: Bytes, nonce: Bytes, pub: Bytes, coins: Bytes): (s: Option<Slot>)
    ensures s.Some? ==> s.value.kind == XWING_SLOT && |s.value.body| == KEM_CIPHERTEXT + |fileKey| + TAG
  {
    match Encapsulate(c, pub, coins)
    case None => None
    case Some(e) =>
      var wrapped := WrapSeal(c, XWingWrapKey(c, e.0, nonce), fileKey, SlotAad(nonce, XWING_SLOT, e.1));
      Some(Slot(XWING_SLOT, e.1 + wrapped))
  }

  function FreshPass(c: Suite, fileKey: Bytes, nonce: Bytes, pass: Bytes, p: ArgonParams, salt: SaltBytes): (s: Slot)
    ensures s.kind == PASS_SLOT && |s.body| == PASS_PUBLIC + |fileKey| + TAG
  {
    var public := PrintArgon(p) + salt;
    var wrapped := WrapSeal(c, Argon(c, pass, salt, p), fileKey, SlotAad(nonce, PASS_SLOT, public));
    Slot(PASS_SLOT, public + wrapped)
  }

  /** The identity behind a recipient key opens the slot made for it. */
  lemma FreshXWingOpens(c: Suite, fileKey: Bytes, nonce: Bytes, seed: Bytes, coins: Bytes)
    requires |fileKey| == KEY
    ensures var s := FreshXWing(c, fileKey, nonce, PublicKey(c, seed), coins);
            s.Some? && |s.value.body| == XWING_BODY && TryXWing(c, s.value, nonce, seed) == Some(fileKey)
  {
    DecapsulateEncapsulated(c, seed, coins);
    var (secret, ct) := Encapsulate(c, PublicKey(c, seed), coins).value;
    var body := FreshXWing(c, fileKey, nonce, PublicKey(c, seed), coins).value.body;
    assert body[..KEM_CIPHERTEXT] == ct;
    assert body[KEM_CIPHERTEXT..] == WrapSeal(c, XWingWrapKey(c, secret, nonce), fileKey, SlotAad(nonce, XWING_SLOT, ct));
    OpenSealed(c, XWingWrapKey(c, secret, nonce), ZERO_NONCE, fileKey, SlotAad(nonce, XWING_SLOT, ct));
  }

  /** The passphrase opens the slot made for it. */
  lemma FreshPassOpens(c: Suite, fileKey: Bytes, nonce: Bytes, pass: Bytes, p: ArgonParams, salt: SaltBytes)
    requires |fileKey| == KEY && ArgonInRange(p)
    ensures var s := FreshPass(c, fileKey, nonce, pass, p, salt);
            |s.body| == PASS_BODY && TryPass(c, s, nonce, pass) == Some(fileKey)
  {
    var public, key := PrintArgon(p) + salt, Argon(c, pass, salt, p);
    var wrapped := WrapSeal(c, key, fileKey, SlotAad(nonce, PASS_SLOT, public));
    var body := FreshPass(c, fileKey, nonce, pass, p, salt).body;
    assert body[..PASS_PUBLIC] == public && body[PASS_PUBLIC..] == wrapped && public[9..] == salt;
    ReadPrintedArgon(p, salt + wrapped);
    Assoc(PrintArgon(p), salt, wrapped);
    OpenSealed(c, key, ZERO_NONCE, fileKey, SlotAad(nonce, PASS_SLOT, public));
  }

  // ----- facts about the first slot that opens

  lemma {:induction false} FindKeySome(c: Suite, slots: seq<Slot>, nonce: Bytes, creds: Credentials) returns (i: nat)
    requires FindKey(c, slots, nonce, creds).Some?
    ensures i < |slots| && SlotKey(c, slots[i], nonce, creds) == FindKey(c, slots, nonce, creds)
  {
    if SlotKey(c, slots[0], nonce, creds).Some? {
      i := 0;
    } else {
      i := FindKeySome(c, slots[1..], nonce, creds);
      i := i + 1;
    }
  }

  lemma {:induction false} FindKeyNone(c: Suite, slots: seq<Slot>, nonce: Bytes, creds: Credentials)
    requires FindKey(c, slots, nonce, creds).None?
    ensures forall s :: s in slots ==> SlotKey(c, s, nonce, creds).None?
  {
    if slots != [] {
      FindKeyNone(c, slots[1..], nonce, creds);
    }
  }

  lemma {:induction false} FindKeyAppend(c: Suite, a: seq<Slot>, b: seq<Slot>, nonce: Bytes, creds: Credentials)
    ensures FindKey(c, a + b, nonce, creds)
         == if FindKey(c, a, nonce, creds).Some? then FindKey(c, a, nonce, creds) else FindKey(c, b, nonce, creds)
  {
    if a == [] {
      assert a + b == b;
    } else {
      assert (a + b)[1..] == a[1..] + b;
      FindKeyAppend(c, a[1..], b, nonce, creds);
    }
  }
}
