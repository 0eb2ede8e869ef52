/** The formats byte by byte, stated without the functions that print and parse them: numbers are
    big-endian, and files laid out by hand open. */
module Formats {
  import opened Prelude
  import opened Crypto
  import opened Payload
  import opened PayloadTheorems
  import opened Header
  import opened Slots
  import opened Box
  import opened Rewraps
  import opened Inspection
  import Base64
  import Armor

  // ----- numbers

  /** Byte 3 of a nonce is the most significant byte of the 64-bit counter, byte 10 the least. */
  lemma NonceLayout(counter: nat, last: bool, j: nat)
    requires j < 8
    ensures var n := Nonce(counter, last);
            && n[0] == n[1] == n[2] == 0 && n[11] == (if last then 1 else 0)
            && Pow256(7 - j) > 0 && n[3 + j] == counter % 0x1_0000_0000_0000_0000 / Pow256(7 - j) % 256
  {
    hide BigEndian;
    BigEndianDigit(Wrap64(counter), 8, j);
  }

  /** Two bytes hold a body length, the more significant first; the body follows as it is. */
  lemma SlotLayout(s: Slot)
    requires |s.body| <= MAX_BODY
    ensures var b := PrintSlot(s);
            |b| == 3 + |s.body| && b[0] == s.kind && Number16(b[1], b[2]) == |s.body| && b[3..] == s.body
  {
    BigEndianDigit(|s.body|, 2, 0);
    BigEndianDigit(|s.body|, 2, 1);
    assert Pow256(1) == 256 && Pow256(0) == 1;
  }

  /** Magic, nonce, slot count, the slots in order, MAC. */
  lemma HeaderLayout(h: Parsed, i: nat)
    requires Readable(h) && i < |h.slots|
    ensures var b := Print(h);
            && |b| >= 25 + MAC && b[..8] == MAGIC_V2 && b[8..24] == h.nonce && b[24] == |h.slots|
            && b[|b| - MAC..] == h.mac
            && 25 + |PrintSlots(h.slots[..i])| + |PrintSlot(h.slots[i])| <= |b| - MAC
            && b[25..][|PrintSlots(h.slots[..i])|..][..|PrintSlot(h.slots[i])|] == PrintSlot(h.slots[i])
    ensures PrintSlots(h.slots[..0]) == []
    ensures PrintSlots(h.slots[..i + 1]) == PrintSlots(h.slots[..i]) + PrintSlot(h.slots[i])
  {
    hide PrintSlots, PrintSlot;
    var b, before, after := Print(h), h.slots[..i], h.slots[i + 1..];
    assert h.slots == before + ([h.slots[i]] + after);
    PrintSlotsAppend(before, [h.slots[i]] + after);
    PrintSlotsAppend([h.slots[i]], after);
    PrintOne(h.slots[i]);
    PrintSlotsAppend(before, [h.slots[i]]);
    assert h.slots[..i + 1] == before + [h.slots[i]];
    var head := MAGIC_V2 + h.nonce + [|h.slots| % 256];
    assert |head| == 25 && b == head + PrintSlots(h.slots) + h.mac;
    assert b[25..] == PrintSlots(before) + (PrintSlot(h.slots[i]) + PrintSlots(after)) + h.mac;
    assert b[25..][|PrintSlots(before)|..] == PrintSlot(h.slots[i]) + PrintSlots(after) + h.mac;
  }

  /** The headers accepted are the printed ones with 1 to 32 slots of at most 4096 bytes. */
  lemma HeaderLanguage(s: Bytes, h: Parsed, payload: Bytes)
    ensures Parse(s) == Some((h, payload)) <==>
              && |h.nonce| == 16 && |h.mac| == 32 && 1 <= |h.slots| <= 32
              && (forall x :: x in h.slots ==> |x.body| <= 4096)
              && MAGIC_V2 + s == Print(h) + payload
  {
    hide PrintSlots, ParseSlots, Print;
    if Parse(s).Some? {
      PrintParsed(s);
    }
    if Readable(h) && MAGIC_V2 + s == Print(h) + payload {
      ParsePrinted(h, payload);
      assert (MAGIC_V2 + s)[8..] == s;
    }
  }

  lemma PrintOne(s: Slot)
    ensures PrintSlots([s]) == PrintSlot(s) && PrintSlots([]) == []
  {
    assert [s][1..] == [];
  }

  function Number16(high: int, low: int): int {
    high * 0x100 + low
  }

  function Number32(b: Bytes): int
    requires |b| == 4
  {
    Number16(Number16(Number16(b[0], b[1]), b[2]), b[3])
  }

  /** Passes, memory and lanes of Argon2id: four bytes, four bytes and one. */
  lemma ArgonLayout(p: ArgonParams)
    requires ArgonInRange(p)
    ensures var b := PrintArgon(p);
            Number32(b[0..4]) == p.time && Number32(b[4..8]) == p.memoryKiB && b[8] == p.threads
  {
    hide BigEndian, Number32;
    FourBytes(p.time);
    FourBytes(p.memoryKiB);
    var b := PrintArgon(p);
    assert b[0..4] == BigEndian(p.time, 4) && b[4..8] == BigEndian(p.memoryKiB, 4);
  }

  lemma FourBytes(n: nat)
    requires n < 0x1_0000_0000
    ensures Number32(BigEndian(n, 4)) == n
  {
    var n1, n2, n3 := n / 0x100, n / 0x100 / 0x100, n / 0x100 / 0x100 / 0x100;
    assert n3 < 0x100;
    assert BigEndian(n3, 1) == [n3] by {
      assert BigEndian(n3 / 0x100, 0) == [];
    }
    assert BigEndian(n2, 2) == [n3, n2 % 0x100];
    assert BigEndian(n1, 3) == [n3, n2 % 0x100, n1 % 0x100];
    assert BigEndian(n, 4) == [n3, n2 % 0x100, n1 % 0x100, n % 0x100];
  }

  // ----- text

  function Ascii(s: string): Bytes
    requires forall k :: 0 <= k < |s| ==> s[k] < '\U{80}'
  {
    seq(|s|, k requires 0 <= k < |s| => s[k] as int)
  }

  lemma MagicSpelled()
    ensures MAGIC_V1 == Ascii("SINDOOK1") && MAGIC_V2 == Ascii("SINDOOK2")
  {
  }

  lemma MarkersSpelled()
    ensures Armor.BEGIN == Ascii("-----BEGIN SINDOOK ENCRYPTED FILE-----")
    ensures Armor.END == Ascii("-----END SINDOOK ENCRYPTED FILE-----")
  {
  }

  predicate Spells(a: Byte, b: Byte, c: Byte, s: string) {
    var t := Base64.EncodeGroup(a, b, c);
    |s| == 4 && t[0] == s[0] as int && t[1] == s[1] as int && t[2] == s[2] as int && t[3] == s[3] as int
  }

  /** Table 1 of RFC 4648: the 64 sextets in order. */
  lemma AlphabetSpelled()
    ensures Spells(0x00, 0x10, 0x83, "ABCD")
    ensures Spells(0x10, 0x51, 0x87, "EFGH")
    ensures Spells(0x20, 0x92, 0x8b, "IJKL")
    ensures Spells(0x30, 0xd3, 0x8f, "MNOP")
    ensures Spells(0x41, 0x14, 0x93, "QRST")
    ensures Spells(0x51, 0x55, 0x97, "UVWX")
    ensures Spells(0x61, 0x96, 0x9b, "YZab")
    ensures Spells(0x71, 0xd7, 0x9f, "cdef")
  {
  }

  lemma AlphabetSpelledOn()
    ensures Spells(0x82, 0x18, 0xa3, "ghij")
    ensures Spells(0x92, 0x59, 0xa7, "klmn")
    ensures Spells(0xa2, 0x9a, 0xab, "opqr")
    ensures Spells(0xb2, 0xdb, 0xaf, "stuv")
    ensures Spells(0xc3, 0x1c, 0xb3, "wxyz")
    ensures Spells(0xd3, 0x5d, 0xb7, "0123")
    ensures Spells(0xe3, 0x9e, 0xbb, "4567")
    ensures Spells(0xf3, 0xdf, 0xbf, "89+/")
  {
  }

  function Sextets(high: int, low: int): int {
    high * 0x40 + low
  }

  /** The four characters of a group are the sextets of its 24 bits, the most significant first. */
  lemma GroupBits(a: Byte, b: Byte, c: Byte)
    ensures var t := Base64.EncodeGroup(a, b, c);
            && (forall k :: 0 <= k < 4 ==> Base64.InAlphabet(t[k]))
            && Number16(Number16(a, b), c)
               == Sextets(Sextets(Sextets(Base64.Value(t[0]), Base64.Value(t[1])), Base64.Value(t[2])), Base64.Value(t[3]))
  {
    var t := Base64.EncodeGroup(a, b, c);
    assert t[0] in t && t[1] in t && t[2] in t && t[3] in t;
    Base64.GroupArithmetic(a, b, c);
    Base64.ValueOfSymbol(a / 4);
    Base64.ValueOfSymbol(a % 4 * 16 + b / 16);
    Base64.ValueOfSymbol(b % 16 * 4 + c / 64);
    Base64.ValueOfSymbol(c % 64);
  }

  /** Section 10 of RFC 4648. */
  lemma TestVectors()
    ensures Base64.Encode([]) == [] && Base64.Encode(Ascii("f")) == Ascii("Zg==")
    ensures Base64.Encode(Ascii("fo")) == Ascii("Zm8=") && Base64.Encode(Ascii("foo")) == Ascii("Zm9v")
  {
    var foo := Ascii("foo");
    assert foo[3..] == [] && Base64.Encode(foo[3..]) == [];
    assert Base64.Encode(foo) == Base64.EncodeGroup(foo[0], foo[1], foo[2]) + Base64.Encode(foo[3..]);
  }

  // ----- v2 files laid out by hand

  function PassBody(c: Suite, key: KeyBytes, nonce: NonceBytes, p: ArgonParams, salt: SaltBytes, pass: Bytes): Bytes {
    var public := PrintArgon(p) + salt;
    public + Crypto.Seal(c, Argon(c, pass, salt, p), ZERO_NONCE, key, MAGIC_V2 + nonce + [0x02] + public)
  }

  function RecipientBody(c: Suite, key: KeyBytes, nonce: NonceBytes, secret: Bytes, ct: Bytes): Bytes {
    ct + Crypto.Seal(c, Hkdf(c, secret, nonce, WrapV2), ZERO_NONCE, key, MAGIC_V2 + nonce + [0x01] + ct)
  }

  lemma PassBodyOpens(c: Suite, key: KeyBytes, nonce: NonceBytes, p: ArgonParams, salt: SaltBytes, creds: Credentials)
    requires ArgonInRange(p) && creds.passphrase.Some?
    ensures SlotKey(c, Slot(0x02, PassBody(c, key, nonce, p, salt, creds.passphrase.value)), nonce, creds) == Some(key)
  {
    hide Lawful, PrintArgon, ArgonInRange, ReadArgon;
    var pass, public := creds.passphrase.value, PrintArgon(p) + salt;
    var aad := MAGIC_V2 + nonce + [0x02] + public;
    var wrapped := Crypto.Seal(c, Argon(c, pass, salt, p), ZERO_NONCE, key, aad);
    var body := PassBody(c, key, nonce, p, salt, pass);
    assert body[..PASS_PUBLIC] == public && body[PASS_PUBLIC..] == wrapped && public[9..] == salt;
    ReadPrintedArgon(p, salt + wrapped);
    Assoc(PrintArgon(p), salt, wrapped);
    OpenSealed(c, Argon(c, pass, salt, p), ZERO_NONCE, key, aad);
  }

  lemma RecipientBodyOpens(c: Suite, key: KeyBytes, nonce: NonceBytes, coins: Bytes, creds: Credentials)
    requires creds.identity.Some?
    ensures var e := Encapsulate(c, PublicKey(c, creds.identity.value), coins);
            && e.Some?
            && SlotKey(c, Slot(0x01, RecipientBody(c, key, nonce, e.value.0, e.value.1)), nonce, creds) == Some(key)
  {
    hide Lawful;
    DecapsulateEncapsulated(c, creds.identity.value, coins);
    var (secret, ct) := Encapsulate(c, PublicKey(c, creds.identity.value), coins).value;
    var aad := MAGIC_V2 + nonce + [0x01] + ct;
    var wrapped := Crypto.Seal(c, Hkdf(c, secret, nonce, WrapV2), ZERO_NONCE, key, aad);
    var body := RecipientBody(c, key, nonce, secret, ct);
    assert body[..KEM_CIPHERTEXT] == ct && body[KEM_CIPHERTEXT..] == wrapped;
    OpenSealed(c, Hkdf(c, secret, nonce, WrapV2), ZERO_NONCE, key, aad);
  }

  /** Magic, nonce, one slot, and the MAC of all that. */
  function OneSlotHeader(c: Suite, key: KeyBytes, nonce: NonceBytes, s: Slot): Bytes
    requires |s.body| <= MAX_BODY
  {
    var h: Bytes := [0x53, 0x49, 0x4e, 0x44, 0x4f, 0x4f, 0x4b, 0x32] + nonce + [0x01]
                    + ([s.kind, |s.body| / 256, |s.body| % 256] + s.body);
    h + Hmac(c, Hkdf(c, key, nonce, HeaderMac), h)
  }

  /** A v2 file with one slot that yields the file key opens, under a payload key derived from file key
      and nonce, to the plaintext. */
  lemma {:induction false} OneSlotFileOpens(c: Suite, key: KeyBytes, nonce: NonceBytes, s: Slot, creds: Credentials, plain: Bytes)
    requires |s.body| <= MAX_BODY && SlotKey(c, s, nonce, creds) == Some(key)
    ensures var file := OneSlotHeader(c, key, nonce, s) + Sealed(c, Hkdf(c, key, nonce, Purpose.Payload), plain);
            OpenFile(c, file, None, creds) == Opened(plain, None)
  {
    hide Lawful, SlotKey, Unlock, OpenFrom, Plan, SealAll, FindKey, MissingKey;
    var payload := Sealed(c, Hkdf(c, key, nonce, Purpose.Payload), plain);
    SealedOpens(c, Hkdf(c, key, nonce, Purpose.Payload), 0, plain);
    OneSlotPrinted(c, key, nonce, s);
    assert s in [s] && Owns(c, [s], nonce, creds);
    OpenWritten(c, key, nonce, [s], payload, None, creds);
  }

  lemma OneSlotPrinted(c: Suite, key: KeyBytes, nonce: NonceBytes, s: Slot)
    requires |s.body| <= MAX_BODY
    ensures OneSlotHeader(c, key, nonce, s) == Print(Signed(c, key, nonce, [s]))
  {
    hide Lawful, PrintSlots, BigEndian, Hmac, Hkdf;
    PrintOne(s);
    BigEndianDigit(|s.body|, 2, 0);
    BigEndianDigit(|s.body|, 2, 1);
    assert Pow256(1) == 256 && Pow256(0) == 1;
    var size: Bytes := [|s.body| / 256, |s.body| % 256];
    assert BigEndian(|s.body|, 2) == size;
    assert PrintSlot(s) == [s.kind, |s.body| / 256, |s.body| % 256] + s.body;
    assert |[s]| % 256 == 1;
    var h: Bytes := [0x53, 0x49, 0x4e, 0x44, 0x4f, 0x4f, 0x4b, 0x32] + nonce + [0x01] + PrintSlot(s);
    assert PrintUnsigned(nonce, [s]) == h;
  }

  // ----- v1 files laid out by hand

  /** The part of a v1 passphrase file that is sealed with, and then the file. */
  function LegacyPassHeader(p: ArgonParams, salt: SaltBytes, nonce: NonceBytes): Bytes {
    [0x53, 0x49, 0x4e, 0x44, 0x4f, 0x4f, 0x4b, 0x31, 0x02] + (PrintArgon(p) + salt + nonce)
  }

  function LegacyPassFile(c: Suite, key: KeyBytes, p: ArgonParams, salt: SaltBytes, nonce: NonceBytes, pass: Bytes, payload: Bytes): Bytes {
    var header := LegacyPassHeader(p, salt, nonce);
    header + Crypto.Seal(c, Argon(c, pass, salt, p), ZERO_NONCE, key, header) + payload
  }

  lemma LegacyPassUnlocks(c: Suite, key: KeyBytes, p: ArgonParams, salt: SaltBytes, nonce: NonceBytes, creds: Credentials, payload: Bytes)
    requires ArgonInRange(p) && creds.passphrase.Some?
    ensures Unlock(c, LegacyPassFile(c, key, p, salt, nonce, creds.passphrase.value, payload), creds)
         == Ok((Unlocked(key, nonce, 1, V1_PASSPHRASE, []), payload))
  {
    hide Lawful, PrintArgon, ArgonInRange, ReadArgon;
    var pass, header := creds.passphrase.value, LegacyPassHeader(p, salt, nonce);
    var wrapped := Crypto.Seal(c, Argon(c, pass, salt, p), ZERO_NONCE, key, header);
    var file := LegacyPassFile(c, key, p, salt, nonce, pass, payload);
    var s := file[8..];
    var argon := PrintArgon(p);
    assert s == [0x02] + (argon + salt + nonce) + wrapped + payload;
    assert s[1..10] == argon + [];
    assert s[10..10 + SALT] == salt && s[10 + SALT..V1_PASSPHRASE_SIZE] == nonce;
    assert MAGIC_V1 + s[..V1_PASSPHRASE_SIZE] == header;
    assert s[V1_PASSPHRASE_SIZE..V1_PASSPHRASE_SIZE + KEY + TAG] == wrapped;
    assert s[V1_PASSPHRASE_SIZE + KEY + TAG..] == payload;
    ReadPrintedArgon(p, []);
    OpenSealed(c, Argon(c, pass, salt, p), ZERO_NONCE, key, header);
    assert file[..8] == MAGIC_V1;
  }

  function LegacyRecipientHeader(ct: Bytes, nonce: NonceBytes): Bytes {
    [0x53, 0x49, 0x4e, 0x44, 0x4f, 0x4f, 0x4b, 0x31, 0x01] + (ct + nonce)
  }

  function LegacyRecipientFile(c: Suite, key: KeyBytes, secret: Bytes, ct: Bytes, nonce: NonceBytes, payload: Bytes): Bytes {
    var header := LegacyRecipientHeader(ct, nonce);
    header + Crypto.Seal(c, Hkdf(c, secret, nonce, WrapV1), ZERO_NONCE, key, header) + payload
  }

  lemma LegacyRecipientUnlocks(c: Suite, key: KeyBytes, coins: Bytes, nonce: NonceBytes, creds: Credentials, payload: Bytes)
    requires creds.identity.Some?
    ensures var e := Encapsulate(c, PublicKey(c, creds.identity.value), coins);
            && e.Some?
            && Unlock(c, LegacyRecipientFile(c, key, e.value.0, e.value.1, nonce, payload), creds)
               == Ok((Unlocked(key, nonce, 1, V1_RECIPIENT, []), payload))
  {
    hide Lawful;
    DecapsulateEncapsulated(c, creds.identity.value, coins);
    var (secret, ct) := Encapsulate(c, PublicKey(c, creds.identity.value), coins).value;
    var header := LegacyRecipientHeader(ct, nonce);
    var wrapped := Crypto.Seal(c, Hkdf(c, secret, nonce, WrapV1), ZERO_NONCE, key, header);
    var file := LegacyRecipientFile(c, key, secret, ct, nonce, payload);
    var s := file[8..];
    assert s == [0x01] + (ct + nonce) + wrapped + payload;
    assert s[1..1 + KEM_CIPHERTEXT] == ct && s[1 + KEM_CIPHERTEXT..V1_RECIPIENT_SIZE] == nonce;
    assert MAGIC_V1 + s[..V1_RECIPIENT_SIZE] == header;
    assert s[V1_RECIPIENT_SIZE..V1_RECIPIENT_SIZE + KEY + TAG] == wrapped;
    assert s[V1_RECIPIENT_SIZE + KEY + TAG..] == payload;
    OpenSealed(c, Hkdf(c, secret, nonce, WrapV1), ZERO_NONCE, key, header);
    assert file[..8] == MAGIC_V1;
  }

  /** A v1 file of either kind, with a payload sealed under the key derived from its file key and
      nonce, opens to the plaintext for whoever it was made for. */
  lemma LegacyFilesOpen(c: Suite, key: KeyBytes, nonce: NonceBytes, p: ArgonParams, salt: SaltBytes, coins: Bytes, creds: Credentials, plain: Bytes)
    ensures var payload := Sealed(c, Hkdf(c, key, nonce, Purpose.Payload), plain);
            && (creds.passphrase.Some? && ArgonInRange(p) ==>
                  OpenFile(c, LegacyPassFile(c, key, p, salt, nonce, creds.passphrase.value, payload), None, creds) == Opened(plain, None))
            && (creds.identity.Some? ==>
                  var e := Encapsulate(c, PublicKey(c, creds.identity.value), coins);
                  && e.Some?
                  && OpenFile(c, LegacyRecipientFile(c, key, e.value.0, e.value.1, nonce, payload), None, creds) == Opened(plain, None))
  {
    hide Lawful, Unlock, OpenFrom, Plan, SealAll, LegacyPassFile, LegacyRecipientFile;
    var payload := Sealed(c, Hkdf(c, key, nonce, Purpose.Payload), plain);
    SealedOpens(c, Hkdf(c, key, nonce, Purpose.Payload), 0, plain);
    if creds.passphrase.Some? && ArgonInRange(p) {
      LegacyPassUnlocks(c, key, p, salt, nonce, creds, payload);
    }
    if creds.identity.Some? {
      LegacyRecipientUnlocks(c, key, coins, nonce, creds, payload);
    }
  }

  /** What Inspect shows of the two kinds of v1 file: one slot, with the parameters it was made with if
      it is for a passphrase, and where the payload begins. */
  lemma {:induction false} LegacyFilesListed(c: Suite, key: KeyBytes, nonce: NonceBytes, p: ArgonParams, salt: SaltBytes, pass: Bytes,
                           secret: Bytes, ct: Bytes, payload: Bytes)
    requires ArgonInRange(p) && |ct| == KEM_CIPHERTEXT
    ensures var file := LegacyPassFile(c, key, p, salt, nonce, pass, payload);
            DescribeFile(file) == Ok(Info(1, |file| - |payload|, [SlotInfo(2, |file| - |payload| - 9, Some(p))]))
    ensures var file := LegacyRecipientFile(c, key, secret, ct, nonce, payload);
            DescribeFile(file) == Ok(Info(1, |file| - |payload|, [SlotInfo(1, |file| - |payload| - 9, None)]))
  {
    hide Lawful, PrintArgon, ArgonInRange, ReadArgon;
    var f, g := LegacyPassFile(c, key, p, salt, nonce, pass, payload), LegacyRecipientFile(c, key, secret, ct, nonce, payload);
    assert f[..8] == MAGIC_V1 && f[8..][0] == 2 && g[..8] == MAGIC_V1 && g[8..][0] == 1;
    var argon, s := PrintArgon(p), f[8..];
    var wrapped := Crypto.Seal(c, Argon(c, pass, salt, p), ZERO_NONCE, key, LegacyPassHeader(p, salt, nonce));
    assert s == [0x02] + (argon + salt + nonce) + wrapped + payload;
    assert s[1..10] == argon + [];
    ReadPrintedArgon(p, []);
  }

  lemma FromFourBytes(b: Bytes)
    requires |b| == 4
    ensures FromBigEndian(b) == Number32(b)
  {
    assert b[..3][..2] == b[..2] && b[..2][..1] == b[..1] && b[..1][..0] == [];
    assert FromBigEndian([]) == 0;
    assert FromBigEndian(b[..1]) == b[0];
    assert FromBigEndian(b[..2]) == Number16(b[0], b[1]);
    assert FromBigEndian(b[..3]) == Number16(Number16(b[0], b[1]), b[2]);
  }

  /** What begins with neither magic is no sealed file, to anyone. */
  lemma Unrecognised(c: Suite, file: Bytes, creds: Credentials)
    requires |file| < 8 || file[..8] !in {Ascii("SINDOOK1"), Ascii("SINDOOK2")}
    ensures Unlock(c, file, creds) == Err(NotSindook) && DescribeFile(file) == Err(NotSindook)
  {
    MagicSpelled();
  }

  /** How a v1 file is refused: for want of a credential of its mode, for its length, or, all of it
      being there, because the credential is not the right one. */
  lemma LegacyRefused(c: Suite, s: Bytes, creds: Credentials)
    ensures var r := Unlock(c, MAGIC_V1 + s, creds);
            && (s == [] ==> r == Err(NotSindook))
            && (s != [] && s[0] !in {0x01, 0x02} ==> r == Err(UnknownMode))
            && (s != [] && s[0] == 0x01 && creds.identity.None? ==> r == Err(NeedIdentity))
            && (s != [] && s[0] == 0x02 && creds.passphrase.None? ==> r == Err(NeedPassphrase))
            && (s != [] && s[0] == 0x01 && creds.identity.Some? ==>
                  if |s| >= 1137 && Decapsulate(c, creds.identity.value, s[1..1121]).None? then r == Err(WrongKey)
                  else if |s| < 1185 then r == Err(NotSindook)
                  else r.Ok? || r == Err(WrongKey))
            && (s != [] && s[0] == 0x02 && creds.passphrase.Some? && (|s| < 42 || ArgonInRange(ReadArgon(s[1..10]))) ==>
                  if |s| < 90 then r == Err(NotSindook) else r.Ok? || r == Err(WrongKey))
  {
    hide Lawful, ArgonInRange, ReadArgon;
    assert (MAGIC_V1 + s)[..8] == MAGIC_V1 && (MAGIC_V1 + s)[8..] == s;
  }

  /** A v1 passphrase header whose parameters are out of range is refused as such, before any key is
      derived, by Inspect and the unlocker alike. */
  lemma {:induction false} LegacyOutOfRange(c: Suite, argon: Bytes, rest: Bytes, creds: Credentials)
    requires |argon| == 9 && |rest| >= SALT + NONCE && creds.passphrase.Some?
    requires !ArgonInRange(ArgonParams(Number32(argon[0..4]), Number32(argon[4..8]), argon[8]))
    ensures var file := MAGIC_V1 + [0x02] + argon + rest;
            Unlock(c, file, creds) == Err(ArgonOutOfRange) && DescribeFile(file) == Err(ArgonOutOfRange)
  {
    hide Lawful, ArgonInRange;
    var file := MAGIC_V1 + [0x02] + argon + rest;
    assert file[..8] == MAGIC_V1 && file[8..][0] == 0x02 && file[8..][1..10] == argon;
    FromFourBytes(argon[0..4]);
    FromFourBytes(argon[4..8]);
  }
}
