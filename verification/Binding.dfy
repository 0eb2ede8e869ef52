/** What the header MAC and the associated data of a wrap bind: no slot can be cut, added, altered,
    moved to another file or have its key derivation weakened without being noticed. */
module Binding {
  import opened Prelude
  import opened Crypto
  import opened Payload
  import opened PayloadTheorems
  import opened Header
  import opened Slots
  import opened Box
  import opened Rewraps

  // ----- the header MAC

  /** The last 32 bytes of a header are the HMAC, under the key derived for it, of all before them. */
  lemma MacIsOverHeader(c: Suite, key: Bytes, nonce: Bytes, slots: seq<Slot>)
    ensures var h := Print(Signed(c, key, nonce, slots));
            |h| >= MAC && h[|h| - MAC..] == Hmac(c, Hkdf(c, key, nonce, HeaderMac), h[..|h| - MAC])
  {
    hide PrintSlots;
    var h := Print(Signed(c, key, nonce, slots));
    assert h[..|h| - MAC] == PrintUnsigned(nonce, slots);
  }

  /** Where a file that unlocks has its header, and in it its MAC. */
  function HeaderEnd(c: Suite, file: Bytes, creds: Credentials): nat
    requires Unlock(c, file, creds).Ok? && |Unlock(c, file, creds).value.1| <= |file|
  {
    |file| - |Unlock(c, file, creds).value.1|
  }

  /** A v2 file that unlocks carries the HMAC of its own header bytes. */
  lemma {:induction false} UnlockedMac(c: Suite, file: Bytes, creds: Credentials)
    requires Unlock(c, file, creds).Ok? && Unlock(c, file, creds).value.0.version == 2
    ensures |Unlock(c, file, creds).value.1| + MAC <= |file|
    ensures var u, n := Unlock(c, file, creds).value.0, HeaderEnd(c, file, creds);
            && file[..n - MAC] == PrintUnsigned(u.nonce, u.slots)
            && file[n - MAC..n] == Hmac(c, Hkdf(c, u.key, u.nonce, HeaderMac), file[..n - MAC])
            && file[n..] == Unlock(c, file, creds).value.1
  {
    hide Lawful, Unlock, PrintSlots, FindKey;
    UnlockedV2Is(c, file, creds);
    var (u, payload) := Unlock(c, file, creds).value;
    MacIsOverHeader(c, u.key, u.nonce, u.slots);
    var h := Print(Signed(c, u.key, u.nonce, u.slots));
    assert |file| == |h| + |payload| && file[..|h|] == h;
    assert file[..|h| - MAC] == h[..|h| - MAC] && file[|h| - MAC..|h|] == h[|h| - MAC..];
  }

  /** HMAC does not collide on these two messages under the MAC key of this file. */
  predicate NoCollision(c: Suite, key: Bytes, nonce: Bytes, m: Bytes, m': Bytes) {
    var k := Hkdf(c, key, nonce, HeaderMac);
    Hmac(c, k, m) == Hmac(c, k, m') ==> m == m'
  }

  /** Two v2 files that unlock to the same key and nonce and carry the same MAC bytes have the same
      slots, if HMAC tells their headers apart. */
  lemma {:induction false} SameMacSameSlots(c: Suite, f: Bytes, creds: Credentials, g: Bytes, creds': Credentials)
    requires Unlock(c, f, creds).Ok? && Unlock(c, f, creds).value.0.version == 2
    requires Unlock(c, g, creds').Ok? && Unlock(c, g, creds').value.0.version == 2
    requires |Unlock(c, f, creds).value.1| + MAC <= |f| && |Unlock(c, g, creds').value.1| + MAC <= |g|
    requires var u, u' := Unlock(c, f, creds).value.0, Unlock(c, g, creds').value.0;
             var n, n' := HeaderEnd(c, f, creds), HeaderEnd(c, g, creds');
             && u.key == u'.key && u.nonce == u'.nonce
             && f[n - MAC..n] == g[n' - MAC..n']
             && NoCollision(c, u.key, u.nonce, f[..n - MAC], g[..n' - MAC])
    ensures Unlock(c, f, creds).value.0.slots == Unlock(c, g, creds').value.0.slots
  {
    hide Lawful, Unlock, PrintUnsigned, FindKey;
    UnlockedMac(c, f, creds);
    UnlockedMac(c, g, creds');
    UnlockedV2Is(c, f, creds);
    UnlockedV2Is(c, g, creds');
    var u, u' := Unlock(c, f, creds).value.0, Unlock(c, g, creds').value.0;
    UnsignedInjective(u.nonce, u.slots, u'.slots);
  }

  lemma {:induction false} UnsignedInjective(nonce: Bytes, slots: seq<Slot>, other: seq<Slot>)
    requires |nonce| == NONCE && SlotsFit(slots) && SlotsFit(other)
    requires PrintUnsigned(nonce, slots) == PrintUnsigned(nonce, other)
    ensures slots == other
  {
    hide PrintUnsigned, Parse;
    var h, h' := Parsed(nonce, slots, Zeros(MAC)), Parsed(nonce, other, Zeros(MAC));
    ParsePrinted(h, []);
    ParsePrinted(h', []);
    assert Print(h) == Print(h');
  }

  /** Whoever puts other slots under the MAC of a genuine file, keeping nonce and payload, makes a
      file that every owner of the old key finds tampered with. */
  lemma {:induction false} AlteredSlotsRefused(c: Suite, file: Bytes, creds: Credentials, other: seq<Slot>, owner: Credentials)
    requires Unlock(c, file, creds).Ok? && Unlock(c, file, creds).value.0.version == 2
    requires |Unlock(c, file, creds).value.1| + MAC <= |file|
    requires SlotsFit(other) && other != Unlock(c, file, creds).value.0.slots
    requires var u, n := Unlock(c, file, creds).value.0, HeaderEnd(c, file, creds);
             && FindKey(c, other, u.nonce, owner) == Some(u.key)
             && NoCollision(c, u.key, u.nonce, file[..n - MAC], PrintUnsigned(u.nonce, other))
    ensures var (u, payload) := Unlock(c, file, creds).value;
            var n := HeaderEnd(c, file, creds);
            Unlock(c, PrintUnsigned(u.nonce, other) + file[n - MAC..n] + payload, owner) == Err(HeaderTampered)
  {
    hide Lawful, PrintUnsigned, FindKey, Parse, UnlockV1, Hmac;
    UnlockedMac(c, file, creds);
    UnlockedV2Is(c, file, creds);
    var (u, payload) := Unlock(c, file, creds).value;
    var n := HeaderEnd(c, file, creds);
    var h := Parsed(u.nonce, other, file[n - MAC..n]);
    ParsePrinted(h, payload);
    assert (Print(h) + payload)[..8] == Print(h)[..8];
    assert MAGIC_V1 != MAGIC_V2 by { assert MAGIC_V1[7] != MAGIC_V2[7]; }
    if h.mac == MacOf(c, u.key, u.nonce, other) {
      UnsignedInjective(u.nonce, u.slots, other);
      assert false;
    }
  }

  // ----- the associated data of a wrap

  /** The end of a slot, where its wrap is. */
  function WrapIn(s: Slot): Bytes
    requires |s.body| >= KEY + TAG
  {
    s.body[|s.body| - KEY - TAG..]
  }

  /** What a wrap is sealed with besides its key. */
  function DataOf(s: Slot, nonce: Bytes): Bytes
    requires |s.body| >= KEY + TAG
  {
    MAGIC_V2 + nonce + [s.kind] + s.body[..|s.body| - KEY - TAG]
  }

  /** A slot that opens does so with the file's nonce, its own kind and all its public part as
      associated data. */
  lemma {:induction false} OpensUnderItsData(c: Suite, s: Slot, nonce: Bytes, creds: Credentials) returns (k: Bytes)
    requires SlotKey(c, s, nonce, creds).Some?
    ensures |s.body| >= KEY + TAG
    ensures Crypto.Open(c, k, ZERO_NONCE, WrapIn(s), DataOf(s, nonce)).Some?
  {
    hide Lawful, ArgonInRange, ReadArgon;
    if s.kind == XWING_SLOT {
      assert TryXWing(c, s, nonce, creds.identity.value).Some?;
      k := XWingWrapKey(c, Decapsulate(c, creds.identity.value, s.body[..KEM_CIPHERTEXT]).value, nonce);
    } else {
      assert TryPass(c, s, nonce, creds.passphrase.value).Some?;
      var public := s.body[..PASS_PUBLIC];
      k := Argon(c, creds.passphrase.value, public[9..], ReadArgon(s.body));
    }
  }

  /** A wrap taken into another file or put under other public parameters does not open: if slots with
      the same wrap open in two files, the files have the same nonce and the slots are the same, or
      else that wrap is a ciphertext that opens with two different pieces of associated data. */
  lemma {:induction false} SlotsBound(c: Suite, s: Slot, nonce: Bytes, creds: Credentials, t: Slot, nonce': Bytes, creds': Credentials)
      returns (k: Bytes, k': Bytes)
    requires |nonce| == |nonce'| && SlotKey(c, s, nonce, creds).Some? && SlotKey(c, t, nonce', creds').Some?
    requires |s.body| >= KEY + TAG && |t.body| >= KEY + TAG && WrapIn(s) == WrapIn(t)
    ensures Crypto.Open(c, k, ZERO_NONCE, WrapIn(s), DataOf(s, nonce)).Some?
    ensures Crypto.Open(c, k', ZERO_NONCE, WrapIn(s), DataOf(t, nonce')).Some?
    ensures DataOf(s, nonce) == DataOf(t, nonce') <==> nonce == nonce' && s == t
  {
    hide Lawful, SlotKey, Crypto.Open;
    k := OpensUnderItsData(c, s, nonce, creds);
    k' := OpensUnderItsData(c, t, nonce', creds');
    var p, p' := s.body[..|s.body| - KEY - TAG], t.body[..|t.body| - KEY - TAG];
    var a, a' := DataOf(s, nonce), DataOf(t, nonce');
    if a == a' {
      assert a[8..8 + |nonce|] == nonce && a'[8..8 + |nonce|] == nonce';
      assert a[8 + |nonce|] == s.kind && a'[8 + |nonce|] == t.kind;
      assert a[9 + |nonce|..] == p && a'[9 + |nonce|..] == p';
      assert s.body == p + WrapIn(s) && t.body == p' + WrapIn(t);
    }
  }
}
