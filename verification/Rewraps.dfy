/** What rewrapping preserves: the payload, the slots an edit keeps, and who can open the result. */
module Rewraps {
  import opened Prelude
  import opened Crypto
  import opened Payload
  import opened Header
  import opened Slots
  import opened Box
  import opened Edit

  // ----- reading back a header that was just written

  ghost predicate SlotsFit(slots: seq<Slot>) {
    1 <= |slots| <= MAX_SLOTS && forall s :: s in slots ==> |s.body| <= MAX_BODY
  }

  /** Unlocking `slots` under `key`'s header gives the payload as it stands whenever the
      credentials find that key, and complains exactly as the slots warrant otherwise. */
  lemma UnlockWritten(c: Suite, key: Bytes, nonce: Bytes, slots: seq<Slot>, payload: Bytes, creds: Credentials)
    requires |nonce| == NONCE && SlotsFit(slots)
    ensures var file := Print(Signed(c, key, nonce, slots)) + payload;
            && |file| > 8 && file[..8] == MAGIC_V2
            && Unlock(c, file, creds)
               == match FindKey(c, slots, nonce, creds)
                  case None => Err(MissingKey(slots, creds))
                  case Some(k) =>
                    if MacOf(c, key, nonce, slots) != MacOf(c, k, nonce, slots) then Err(HeaderTampered)
                    else Ok((Unlocked(k, nonce, 2, 0, slots), payload))
  {
    hide Lawful, Parse, FindKey, MacOf, Print;
    var h := Signed(c, key, nonce, slots);
    ParsePrinted(h, payload);
    assert (Print(h) + payload)[..8] == Print(h)[..8];
    assert MAGIC_V1 != MAGIC_V2 by { assert MAGIC_V1[7] != MAGIC_V2[7]; }
  }

  /** An accepted v2 file is exactly the header its own slots and key print, and its payload. */
  lemma UnlockedV2Is(c: Suite, file: Bytes, creds: Credentials)
    requires Unlock(c, file, creds).Ok? && Unlock(c, file, creds).value.0.version == 2
    ensures var (u, payload) := Unlock(c, file, creds).value;
            && |u.key| == KEY && |u.nonce| == NONCE && SlotsFit(u.slots)
            && FindKey(c, u.slots, u.nonce, creds) == Some(u.key)
            && file == Print(Signed(c, u.key, u.nonce, u.slots)) + payload
  {
    hide Lawful, ParseSlots, PrintSlots;
    PrintParsed(file[8..]);
    assert file == file[..8] + file[8..];
  }

  // ----- which credentials a set of slots serves

  /** No slot gives these credentials anything but `key`. */
  ghost predicate Unambiguous(c: Suite, slots: seq<Slot>, nonce: Bytes, key: Bytes, creds: Credentials) {
    forall s :: s in slots && SlotKey(c, s, nonce, creds).Some? ==> SlotKey(c, s, nonce, creds) == Some(key)
  }

  /** Some slot opens under these credentials. */
  ghost predicate Owns(c: Suite, slots: seq<Slot>, nonce: Bytes, creds: Credentials) {
    exists s :: s in slots && SlotKey(c, s, nonce, creds).Some?
  }

  lemma FindKeyIff(c: Suite, slots: seq<Slot>, nonce: Bytes, key: Bytes, creds: Credentials)
    requires Unambiguous(c, slots, nonce, key, creds)
    ensures FindKey(c, slots, nonce, creds) == if Owns(c, slots, nonce, creds) then Some(key) else None
  {
    hide Lawful, FindKey, SlotKey;
    if FindKey(c, slots, nonce, creds).Some? {
      var i := FindKeySome(c, slots, nonce, creds);
      assert slots[i] in slots;
    } else {
      FindKeyNone(c, slots, nonce, creds);
    }
  }

  /** Opening a file printed from slots and key: the payload's own result for those who own a
      slot, a refusal without output for everyone else. */
  lemma {:induction false} OpenWritten(c: Suite, key: Bytes, nonce: Bytes, slots: seq<Slot>, payload: Bytes, ending: Option<Error>, creds: Credentials)
    requires |nonce| == NONCE && SlotsFit(slots) && Unambiguous(c, slots, nonce, key, creds)
    ensures OpenFile(c, Print(Signed(c, key, nonce, slots)) + payload, ending, creds)
         == if Owns(c, slots, nonce, creds) then OpenAll(c, PayloadKey(c, key, nonce), payload, ending)
            else Opened([], Some(MissingKey(slots, creds)))
  {
    hide Lawful, FindKey, Unambiguous, Owns, Unlock, OpenAll, Signed, MacOf, PayloadKey;
    UnlockWritten(c, key, nonce, slots, payload, creds);
    FindKeyIff(c, slots, nonce, key, creds);
  }

  // ----- fresh slots

  lemma FreshSlotsFit(c: Suite, key: Bytes, nonce: Bytes, opts: SealOptions, coins: Coins)
    requires |key| == KEY && CanEncapsulate(c, key, nonce, opts, coins)
    ensures forall s :: s in FreshSlots(c, key, nonce, opts, coins) ==> |s.body| <= MAX_BODY
    ensures |FreshSlots(c, key, nonce, opts, coins)| == |opts.recipients| + |opts.passphrases|
  {
    hide Lawful, FreshXWing, FreshPass;
    var slots, n := FreshSlots(c, key, nonce, opts, coins), |opts.recipients|;
    forall s | s in slots
      ensures |s.body| <= MAX_BODY
    {
      var k :| 0 <= k < |slots| && slots[k] == s;
      if k < n {
        assert s == FreshXWing(c, key, nonce, opts.recipients[k], coins.kem(k)).value;
      } else {
        assert s == FreshPass(c, key, nonce, opts.passphrases[k - n], opts.argon, coins.salt(k - n));
      }
    }
  }

  /** One slot for each recipient and then one for each passphrase, in order, each with its own
      encapsulation or its own salt. */
  lemma FreshInOrder(c: Suite, key: Bytes, nonce: Bytes, opts: SealOptions, coins: Coins, i: nat)
    requires CanEncapsulate(c, key, nonce, opts, coins)
    ensures var slots, n := FreshSlots(c, key, nonce, opts, coins), |opts.recipients|;
            && |slots| == n + |opts.passphrases|
            && (i < n ==>
                  var e := Encapsulate(c, opts.recipients[i], coins.kem(i));
                  e.Some? && slots[i].kind == 0x01 && e.value.1 <= slots[i].body)
            && (i < |opts.passphrases| ==>
                  slots[n + i].kind == 0x02 && PrintArgon(opts.argon) + coins.salt(i) <= slots[n + i].body)
  {
    hide Lawful, PrintArgon, WrapSeal, Argon;
    if i < |opts.recipients| {
      assert FreshXWing(c, key, nonce, opts.recipients[i], coins.kem(i)).Some?;
    }
    if i < |opts.passphrases| {
      var s := FreshSlots(c, key, nonce, opts, coins)[|opts.recipients| + i];
      assert s == FreshPass(c, key, nonce, opts.passphrases[i], opts.argon, coins.salt(i));
    }
  }

  /** Whoever was named a recipient or gave a passphrase owns one of the fresh slots. */
  lemma FreshOwners(c: Suite, key: Bytes, nonce: Bytes, opts: SealOptions, coins: Coins, creds: Credentials)
    requires |key| == KEY && CanEncapsulate(c, key, nonce, opts, coins) && Validate(opts).None?
    requires Named(c, opts, creds)
    ensures Owns(c, FreshSlots(c, key, nonce, opts, coins), nonce, creds)
  {
    hide Lawful, TryXWing, TryPass, FreshXWing, FreshPass;
    var slots := FreshSlots(c, key, nonce, opts, coins);
    if creds.identity.Some? && PublicKey(c, creds.identity.value) in opts.recipients {
      var i :| 0 <= i < |opts.recipients| && opts.recipients[i] == PublicKey(c, creds.identity.value);
      FreshXWingOpens(c, key, nonce, creds.identity.value, coins.kem(i));
      assert slots[i] in slots && slots[i].kind == XWING_SLOT;
    } else {
      var i :| 0 <= i < |opts.passphrases| && opts.passphrases[i] == creds.passphrase.value;
      FreshPassOpens(c, key, nonce, opts.passphrases[i], opts.argon, coins.salt(i));
      var s := slots[|opts.recipients| + i];
      assert s in slots && s == FreshPass(c, key, nonce, opts.passphrases[i], opts.argon, coins.salt(i));
    }
  }

  // ----- fast rewrap

  lemma UnlockedSizes(c: Suite, file: Bytes, creds: Credentials)
    requires Unlock(c, file, creds).Ok?
    ensures var u := Unlock(c, file, creds).value.0; |u.key| == KEY && |u.nonce| == NONCE
    ensures var u := Unlock(c, file, creds).value.0; u.version == 1 || u.version == 2
  {
    hide Lawful, ParseSlots, Decapsulate;
  }

  /** Fast rewrap and opening commute, for v1 and v2 files and for damaged payloads too: a new
      credential gets the bytes and the error the old one got, everyone else is refused. */
  lemma {:induction false} FastRewrapCommutes(c: Suite, file: Bytes, ending: Option<Error>, creds: Credentials, opts: SealOptions, coins: Coins, other: Credentials)
    requires Validate(opts).None? && Unlock(c, file, creds).Ok?
    requires var u := Unlock(c, file, creds).value.0;
             && CanEncapsulate(c, u.key, u.nonce, opts, coins)
             && Unambiguous(c, FreshSlots(c, u.key, u.nonce, opts, coins), u.nonce, u.key, other)
    ensures var u := Unlock(c, file, creds).value.0;
            var w := FastRewrap(c, file, ending, creds, opts, coins);
            && w.err == ending
            && OpenFile(c, w.bytes, ending, other)
               == if Owns(c, FreshSlots(c, u.key, u.nonce, opts, coins), u.nonce, other) then OpenFile(c, file, ending, creds)
                  else Opened([], Some(MissingKey(FreshSlots(c, u.key, u.nonce, opts, coins), other)))
  {
    hide Lawful, Unlock, FreshSlots, CanEncapsulate, Owns, Unambiguous, OpenAll;
    var (u, payload) := Unlock(c, file, creds).value;
    UnlockedSizes(c, file, creds);
    FreshSlotsFit(c, u.key, u.nonce, opts, coins);
    OpenWritten(c, u.key, u.nonce, FreshSlots(c, u.key, u.nonce, opts, coins), payload, ending, other);
  }

  // ----- slot edits

  /** The numbers of the unclaimed slots among the first n, in order. */
  ghost function KeptIndices(c: Suite, slots: seq<Slot>, n: nat, nonce: Bytes, e: SlotEdit): (r: seq<nat>)
    requires n <= |slots|
    ensures forall j :: 0 <= j < |r| ==> r[j] < n
  {
    if n == 0 then []
    else KeptIndices(c, slots, n - 1, nonce, e) + if Claimed(c, slots, n - 1, nonce, e) then [] else [n - 1]
  }

  lemma {:induction false} KeptInOrder(c: Suite, slots: seq<Slot>, n: nat, nonce: Bytes, e: SlotEdit)
    requires n <= |slots|
    ensures var idx, kept := KeptIndices(c, slots, n, nonce, e), Kept(c, slots, n, nonce, e);
            && |idx| == |kept|
            && (forall j :: 0 <= j < |kept| ==> kept[j] == slots[idx[j]])
            && (forall j, k :: 0 <= j < k < |idx| ==> idx[j] < idx[k])
  {
    hide Claimed;
    if n > 0 {
      KeptInOrder(c, slots, n - 1, nonce, e);
    }
  }

  lemma {:induction false} KeptMembers(c: Suite, slots: seq<Slot>, n: nat, nonce: Bytes, e: SlotEdit)
    requires n <= |slots|
    ensures forall i: nat :: i < n ==> (i in KeptIndices(c, slots, n, nonce, e) <==> !Claimed(c, slots, i, nonce, e))
  {
    hide Claimed;
    if n > 0 {
      KeptMembers(c, slots, n - 1, nonce, e);
    }
  }

  /** Slot i is left alone: its number (they start at 1) is not listed, it is not swept away with the
      passphrase slots, and no credential to be dropped opens it. */
  ghost predicate Stays(c: Suite, slots: seq<Slot>, i: nat, nonce: Bytes, e: SlotEdit)
    requires i < |slots|
  {
    && i + 1 !in e.dropSlots
    && (e.dropPassSlots ==> slots[i].kind != PASS_SLOT)
    && (forall d :: d in e.dropIdentities ==> SlotKey(c, slots[i], nonce, Credentials(Some(d), None)).None?)
    && (forall q :: q in e.dropPassphrases ==> SlotKey(c, slots[i], nonce, Credentials(None, Some(q))).None?)
  }

  lemma StaysIff(c: Suite, slots: seq<Slot>, i: nat, nonce: Bytes, e: SlotEdit)
    requires i < |slots|
    ensures Stays(c, slots, i, nonce, e) <==> !Claimed(c, slots, i, nonce, e)
  {
    hide Lawful, TryXWing, TryPass;
    var s := slots[i];
    assert forall d :: SlotKey(c, s, nonce, Credentials(Some(d), None)).Some? <==> OpensUnderIdentity(c, s, nonce, d);
    assert forall q :: SlotKey(c, s, nonce, Credentials(None, Some(q))).Some? <==> OpensUnderPassphrase(c, s, nonce, q);
  }

  /** An edit keeps exactly the slots that are to stay, each verbatim, in their order. */
  lemma KeptExactly(c: Suite, slots: seq<Slot>, nonce: Bytes, e: SlotEdit)
    ensures var idx, kept := KeptIndices(c, slots, |slots|, nonce, e), Kept(c, slots, |slots|, nonce, e);
            && |idx| == |kept|
            && (forall j :: 0 <= j < |kept| ==> kept[j] == slots[idx[j]])
            && (forall j, k :: 0 <= j < k < |idx| ==> idx[j] < idx[k])
            && (forall i: nat :: i < |slots| ==> (i in idx <==> Stays(c, slots, i, nonce, e)))
  {
    hide Claimed, Kept, KeptIndices, Stays;
    KeptInOrder(c, slots, |slots|, nonce, e);
    KeptMembers(c, slots, |slots|, nonce, e);
    forall i: nat | i < |slots|
      ensures Stays(c, slots, i, nonce, e) <==> !Claimed(c, slots, i, nonce, e)
    {
      StaysIff(c, slots, i, nonce, e);
    }
  }

  /** Dropping number n alone takes out the n-th slot and no other. */
  lemma {:induction false} DropOneNumber(c: Suite, slots: seq<Slot>, m: nat, nonce: Bytes, e: SlotEdit, n: int)
    requires 1 <= n <= |slots| && m <= |slots|
    requires e.dropSlots == [n] && !e.dropPassSlots && e.dropIdentities == [] && e.dropPassphrases == []
    ensures Kept(c, slots, m, nonce, e) == if m < n then slots[..m] else slots[..n - 1] + slots[n..m]
  {
    hide Claimed;
    if m > 0 {
      DropOneNumber(c, slots, m - 1, nonce, e, n);
      StaysIff(c, slots, m - 1, nonce, e);
      assert slots[..m] == slots[..m - 1] + [slots[m - 1]];
      assert m > n ==> slots[n..m] == slots[n..m - 1] + [slots[m - 1]];
    }
  }

  function WithoutPassSlots(slots: seq<Slot>): seq<Slot> {
    if slots == [] then []
    else (if slots[0].kind == PASS_SLOT then [] else [slots[0]]) + WithoutPassSlots(slots[1..])
  }

  lemma {:induction false} WithoutPassSnoc(slots: seq<Slot>, s: Slot)
    ensures WithoutPassSlots(slots + [s]) == WithoutPassSlots(slots) + if s.kind == PASS_SLOT then [] else [s]
  {
    if slots == [] {
      assert [s][1..] == [];
    } else {
      assert (slots + [s])[1..] == slots[1..] + [s];
      WithoutPassSnoc(slots[1..], s);
    }
  }

  /** Dropping the passphrase slots takes out exactly those. */
  lemma {:induction false} DropPassSlotsOnly(c: Suite, slots: seq<Slot>, m: nat, nonce: Bytes, e: SlotEdit)
    requires m <= |slots|
    requires e.dropSlots == [] && e.dropPassSlots && e.dropIdentities == [] && e.dropPassphrases == []
    ensures Kept(c, slots, m, nonce, e) == WithoutPassSlots(slots[..m])
  {
    hide Claimed;
    if m > 0 {
      DropPassSlotsOnly(c, slots, m - 1, nonce, e);
      StaysIff(c, slots, m - 1, nonce, e);
      WithoutPassSnoc(slots[..m - 1], slots[m - 1]);
      assert slots[..m] == slots[..m - 1] + [slots[m - 1]];
    }
  }

  lemma KeptSubset(c: Suite, slots: seq<Slot>, n: nat, nonce: Bytes, e: SlotEdit)
    requires n <= |slots|
    ensures forall s :: s in Kept(c, slots, n, nonce, e) ==> s in slots
  {
    hide Claimed;
    KeptInOrder(c, slots, n, nonce, e);
  }

  /** Every selector of the edit claims at least one slot, and slot numbers exist. */
  ghost predicate SelectorsMatch(c: Suite, slots: seq<Slot>, nonce: Bytes, e: SlotEdit) {
    && (forall n :: n in e.dropSlots ==> 1 <= n <= |slots|)
    && (e.dropPassSlots ==> exists i :: 0 <= i < |slots| && slots[i].kind == PASS_SLOT)
    && (forall d :: d in e.dropIdentities ==> exists i :: 0 <= i < |slots| && OpensUnderIdentity(c, slots[i], nonce, d))
    && (forall q :: q in e.dropPassphrases ==> exists i :: 0 <= i < |slots| && OpensUnderPassphrase(c, slots[i], nonce, q))
  }

  /** The slots the edited file would have stay within the caps, and the added ones are well formed. */
  ghost predicate WithinCaps(kept: seq<Slot>, add: SealOptions) {
    && 1 <= |kept| + |add.recipients| + |add.passphrases| <= MAX_SLOTS
    && |add.passphrases| + CountPass(kept) <= MAX_PASS_SLOTS
    && (forall r :: r in add.recipients ==> |r| == PUBLIC_KEY)
    && (add.passphrases != [] ==> ArgonInRange(add.argon))
  }

  /** An edit of a v2 file writes something exactly when every selector claims a slot, the caps
      hold and the new slots can be made; then it writes the kept slots, the added ones and the
      payload unchanged. */
  lemma {:induction false} EditWrites(c: Suite, file: Bytes, ending: Option<Error>, creds: Credentials, e: SlotEdit, coins: Coins)
    requires e.keepAll && Unlock(c, file, creds).Ok? && Unlock(c, file, creds).value.0.version == 2
    ensures var (u, payload) := Unlock(c, file, creds).value;
            var kept, add := Kept(c, u.slots, |u.slots|, u.nonce, e), WithDefaults(e.add);
            var w := EditFile(c, file, ending, creds, e, coins);
            if SelectorsMatch(c, u.slots, u.nonce, e) && WithinCaps(kept, add) && CanEncapsulate(c, u.key, u.nonce, add, coins)
            then w == Written(Print(Signed(c, u.key, u.nonce, kept + FreshSlots(c, u.key, u.nonce, add, coins))) + payload, ending)
            else w.bytes == [] && w.err.Some?
  {
    hide Lawful, Unlock, CanEncapsulate, FreshSlots, Kept, CountPass, OpensUnderIdentity, OpensUnderPassphrase;
    var (u, payload) := Unlock(c, file, creds).value;
    var kept, add := Kept(c, u.slots, |u.slots|, u.nonce, e), WithDefaults(e.add);
    SelectorsMatchIff(c, u.slots, u.nonce, e);
    WithinCapsIff(kept, add);
  }

  lemma SelectorsMatchIff(c: Suite, slots: seq<Slot>, nonce: Bytes, e: SlotEdit)
    ensures SelectorsMatch(c, slots, nonce, e) <==> SelectorError(c, slots, nonce, e).None?
  {
    hide Lawful, OpensUnderIdentity, OpensUnderPassphrase;
  }

  lemma WithinCapsIff(kept: seq<Slot>, add: SealOptions)
    ensures WithinCaps(kept, add) <==> CapError(kept, add).None?
  {
  }

  /** Who opens an edited v2 file: exactly the owners of a kept or added slot, and they get what
      the old file gave. */
  lemma {:induction false} EditOpensIff(c: Suite, file: Bytes, ending: Option<Error>, creds: Credentials, e: SlotEdit, coins: Coins, other: Credentials)
    requires e.keepAll && Unlock(c, file, creds).Ok? && Unlock(c, file, creds).value.0.version == 2
    requires EditFile(c, file, ending, creds, e, coins).bytes != []
    requires var u := Unlock(c, file, creds).value.0;
             && Unambiguous(c, u.slots, u.nonce, u.key, other)
             && (CanEncapsulate(c, u.key, u.nonce, WithDefaults(e.add), coins) ==>
                   Unambiguous(c, FreshSlots(c, u.key, u.nonce, WithDefaults(e.add), coins), u.nonce, u.key, other))
    ensures var u := Unlock(c, file, creds).value.0;
            var kept, add := Kept(c, u.slots, |u.slots|, u.nonce, e), WithDefaults(e.add);
            var out := EditFile(c, file, ending, creds, e, coins).bytes;
            && CanEncapsulate(c, u.key, u.nonce, add, coins)
            && (Unlock(c, out, other).Ok? <==>
                  Owns(c, kept, u.nonce, other) || Owns(c, FreshSlots(c, u.key, u.nonce, add, coins), u.nonce, other))
            && (Unlock(c, out, other).Ok? ==> OpenFile(c, out, ending, other) == OpenFile(c, file, ending, creds))
  {
    hide Lawful, Unlock, CanEncapsulate, FreshSlots, Kept, OpensUnderIdentity, OpensUnderPassphrase, SelectorsMatch, OpenAll, EditFile, SlotKey, FindKey;
    EditWrites(c, file, ending, creds, e, coins);
    var (u, payload) := Unlock(c, file, creds).value;
    var kept, add := Kept(c, u.slots, |u.slots|, u.nonce, e), WithDefaults(e.add);
    var added := FreshSlots(c, u.key, u.nonce, add, coins);
    KeptSubset(c, u.slots, |u.slots|, u.nonce, e);
    UnlockedV2Is(c, file, creds);
    FreshSlotsFit(c, u.key, u.nonce, add, coins);
    UnlockWritten(c, u.key, u.nonce, kept + added, payload, other);
    OpenWritten(c, u.key, u.nonce, kept + added, payload, ending, other);
    FindKeyIff(c, kept + added, u.nonce, u.key, other);
    assert Owns(c, kept + added, u.nonce, other) <==> Owns(c, kept, u.nonce, other) || Owns(c, added, u.nonce, other);
  }

  /** With nothing to drop and nothing to add, keeping all slots gives back the very same bytes,
      exactly for the files with at most four passphrase slots. */
  lemma {:induction false} EditIdentity(c: Suite, file: Bytes, ending: Option<Error>, creds: Credentials, argon: ArgonParams, coins: Coins)
    requires Unlock(c, file, creds).Ok? && Unlock(c, file, creds).value.0.version == 2
    ensures var e := SlotEdit(true, [], false, [], [], SealOptions([], [], argon));
            EditFile(c, file, ending, creds, e, coins) == Written(file, ending)
            <==> CountPass(Unlock(c, file, creds).value.0.slots) <= MAX_PASS_SLOTS
  {
    hide Lawful, Unlock, Kept, CountPass, OpensUnderIdentity, OpensUnderPassphrase, FreshXWing, EditFile;
    var e := SlotEdit(true, [], false, [], [], SealOptions([], [], argon));
    var (u, payload) := Unlock(c, file, creds).value;
    EditWrites(c, file, ending, creds, e, coins);
    KeepsEverything(c, u.slots, |u.slots|, u.nonce, e);
    UnlockedV2Is(c, file, creds);
    assert u.slots[..|u.slots|] == u.slots;
    assert u.slots + FreshSlots(c, u.key, u.nonce, e.add, coins) == u.slots;
    UnlockWritten(c, u.key, u.nonce, u.slots, payload, creds);
  }

  lemma {:induction false} KeepsEverything(c: Suite, slots: seq<Slot>, n: nat, nonce: Bytes, e: SlotEdit)
    requires n <= |slots| && !HasDrop(e)
    ensures Kept(c, slots, n, nonce, e) == slots[..n]
  {
    if n > 0 {
      KeepsEverything(c, slots, n - 1, nonce, e);
      assert slots[..n] == slots[..n - 1] + [slots[n - 1]];
    }
  }

  // ----- edits of v1 files, which have one slot that is implied

  /** Every selector of the edit claims the one slot. */
  ghost predicate SelectorsMatchV1(c: Suite, u: Unlocked, creds: Credentials, e: SlotEdit) {
    && (forall n :: n in e.dropSlots ==> n == 1)
    && (e.dropPassSlots ==> u.mode == 2)
    && (forall d :: d in e.dropIdentities ==> u.mode == 1 && creds.identity.Some? && PublicKey(c, d) == PublicKey(c, creds.identity.value))
    && (forall q :: q in e.dropPassphrases ==> u.mode == 2 && creds.passphrase == Some(q))
  }

  predicate NoSelector(e: SlotEdit) {
    e.dropSlots == [] && !e.dropPassSlots && e.dropIdentities == [] && e.dropPassphrases == []
  }

  /** The slots to add, after the one that stands for the credential that opened the file. */
  function OwnFirst(c: Suite, u: Unlocked, creds: Credentials, add: SealOptions): SealOptions {
    if u.mode == 1 && creds.identity.Some? then add.(recipients := [PublicKey(c, creds.identity.value)] + add.recipients)
    else if u.mode == 2 && creds.passphrase.Some? then add.(passphrases := [creds.passphrase.value] + add.passphrases)
    else add
  }

  /** An edit of a v1 file writes something exactly when every selector claims its slot, the caps hold
      and the new slots can be made; then the old slot is gone if there was any selector, and first
      among the new ones if there was none. */
  lemma {:induction false} EditV1Writes(c: Suite, file: Bytes, ending: Option<Error>, creds: Credentials, e: SlotEdit, coins: Coins)
    requires e.keepAll && Unlock(c, file, creds).Ok? && Unlock(c, file, creds).value.0.version == 1
    ensures var (u, payload) := Unlock(c, file, creds).value;
            var add := WithDefaults(if NoSelector(e) then OwnFirst(c, u, creds, e.add) else e.add);
            var w := EditFile(c, file, ending, creds, e, coins);
            if SelectorsMatchV1(c, u, creds, e) && WithinCaps([], add) && CanEncapsulate(c, u.key, u.nonce, add, coins)
            then w == Written(Print(Signed(c, u.key, u.nonce, FreshSlots(c, u.key, u.nonce, add, coins))) + payload, ending)
            else w.bytes == [] && w.err.Some?
  {
    hide Lawful, Unlock, CanEncapsulate, FreshSlots, CountPass, PublicKey, Print, Signed;
    var (u, payload) := Unlock(c, file, creds).value;
    UnlockedV1Owns(c, file, creds);
    SelectorsMatchV1Iff(c, u, creds, e);
    var add := WithDefaults(if NoSelector(e) then OwnFirst(c, u, creds, e.add) else e.add);
    WithinCapsIff([], add);
    if CanEncapsulate(c, u.key, u.nonce, add, coins) {
      assert [] + FreshSlots(c, u.key, u.nonce, add, coins) == FreshSlots(c, u.key, u.nonce, add, coins);
    }
  }

  lemma SelectorsMatchV1Iff(c: Suite, u: Unlocked, creds: Credentials, e: SlotEdit)
    requires (u.mode == V1_RECIPIENT && creds.identity.Some?) || (u.mode == V1_PASSPHRASE && creds.passphrase.Some?)
    ensures SelectorsMatchV1(c, u, creds, e) <==> SelectorErrorV1(c, u, creds, e).None?
    ensures SelectorsMatchV1(c, u, creds, e) ==> (NoSelector(e) <==> !DropsV1(c, u, creds, e))
    ensures NoSelector(e) ==> AddV1(c, u, creds, e) == OwnFirst(c, u, creds, e.add)
  {
    hide Lawful, PublicKey;
    if SelectorsMatchV1(c, u, creds, e) && !NoSelector(e) {
      if e.dropIdentities != [] {
        assert e.dropIdentities[0] in e.dropIdentities;
      }
      if e.dropPassphrases != [] {
        assert e.dropPassphrases[0] in e.dropPassphrases;
      }
    }
  }

  /** Editing a v1 file loses nobody by accident: the credential that opened it still does unless there
      is a selector, and so does everyone added. */
  lemma {:induction false} EditV1Keeps(c: Suite, file: Bytes, ending: Option<Error>, creds: Credentials, e: SlotEdit, coins: Coins, other: Credentials)
    requires e.keepAll && Unlock(c, file, creds).Ok? && Unlock(c, file, creds).value.0.version == 1
    requires EditFile(c, file, ending, creds, e, coins).bytes != []
    requires var u := Unlock(c, file, creds).value.0;
             var add := WithDefaults(if NoSelector(e) then OwnFirst(c, u, creds, e.add) else e.add);
             && ((other == creds && NoSelector(e)) || Named(c, e.add, other))
             && (CanEncapsulate(c, u.key, u.nonce, add, coins) ==>
                   Unambiguous(c, FreshSlots(c, u.key, u.nonce, add, coins), u.nonce, u.key, other))
    ensures OpenFile(c, EditFile(c, file, ending, creds, e, coins).bytes, ending, other) == OpenFile(c, file, ending, creds)
  {
    hide Lawful, Unlock, CanEncapsulate, FreshSlots, OpenAll, SlotKey, FindKey, SelectorsMatchV1, Unambiguous, Owns, Signed, Print,
      PayloadKey, EditFile;
    var (u, payload) := Unlock(c, file, creds).value;
    UnlockedSizes(c, file, creds);
    UnlockedV1Owns(c, file, creds);
    EditV1Writes(c, file, ending, creds, e, coins);
    var add := WithDefaults(if NoSelector(e) then OwnFirst(c, u, creds, e.add) else e.add);
    FreshOwners(c, u.key, u.nonce, add, coins, other);
    FreshSlotsFit(c, u.key, u.nonce, add, coins);
    OpenWritten(c, u.key, u.nonce, FreshSlots(c, u.key, u.nonce, add, coins), payload, ending, other);
  }

  // ----- what is refused, and how

  /** The options `Seal` and `Rewrap` accept. */
  lemma ValidateIff(o: SealOptions)
    ensures Validate(o).None? <==>
              && 1 <= |o.recipients| + |o.passphrases| <= 32 && |o.passphrases| <= 4
              && (forall r :: r in o.recipients ==> |r| == 1216)
              && (o.passphrases != [] ==>
                    1 <= o.argon.time <= 64 && 1 <= o.argon.threads <= 64 && 8 * o.argon.threads <= o.argon.memoryKiB <= 1024 * 1024)
  {
  }

  /** Which complaint about options comes first. */
  lemma ValidateHow(o: SealOptions)
    ensures var r, p, e := |o.recipients|, |o.passphrases|, Validate(o);
            && (e == Some(NoSlotRequested) <==> r + p == 0)
            && (e == Some(TooManySlots) <==> r + p > 32)
            && (e == Some(TooManyPassphrases) <==> r + p <= 32 && p > 4)
            && (e == Some(MalformedRecipient) <==> r + p <= 32 && p <= 4 && exists x :: x in o.recipients && |x| != 1216)
            && (e == Some(ArgonOutOfRange) ==> p > 0 && !ArgonInRange(o.argon))
  {
  }

  /** A passphrase added without parameters gets the defaults, which are in range. */
  lemma DefaultsUsed(add: SealOptions)
    ensures add.passphrases != [] && add.argon == ArgonParams(0, 0, 0) ==> WithDefaults(add) == add.(argon := ArgonParams(3, 65536, 4))
    ensures add.passphrases == [] || add.argon != ArgonParams(0, 0, 0) ==> WithDefaults(add) == add
    ensures ArgonInRange(ArgonParams(3, 65536, 4)) && !ArgonInRange(ArgonParams(0, 0, 0))
  {
  }

  /** Whoever owns no slot is told which kind of credential is missing, an identity first, or that what
      was given is wrong. */
  lemma {:induction false} RefusedHow(c: Suite, key: Bytes, nonce: Bytes, slots: seq<Slot>, payload: Bytes, ending: Option<Error>, creds: Credentials)
    requires |nonce| == NONCE && SlotsFit(slots) && !Owns(c, slots, nonce, creds)
    ensures var o := OpenFile(c, Print(Signed(c, key, nonce, slots)) + payload, ending, creds);
            var xwing, pass := exists i :: 0 <= i < |slots| && slots[i].kind == 0x01, exists i :: 0 <= i < |slots| && slots[i].kind == 0x02;
            && o.plain == []
            && (o.err == Some(NeedIdentity) <==> creds.identity.None? && xwing)
            && (o.err == Some(NeedPassphrase) <==> creds.passphrase.None? && pass && !(creds.identity.None? && xwing))
            && (o.err == Some(WrongKey) <==> (creds.identity.Some? || !xwing) && (creds.passphrase.Some? || !pass))
  {
    hide Lawful, FindKey, Owns, Unlock, OpenAll, Signed, MacOf, PayloadKey, SlotKey;
    assert Unambiguous(c, slots, nonce, key, creds) by { NoOwner(c, slots, nonce, key, creds); }
    OpenWritten(c, key, nonce, slots, payload, ending, creds);
    assert (exists s :: s in slots && s.kind == XWING_SLOT) <==> exists i :: 0 <= i < |slots| && slots[i].kind == 0x01;
    assert (exists s :: s in slots && s.kind == PASS_SLOT) <==> exists i :: 0 <= i < |slots| && slots[i].kind == 0x02;
  }

  lemma NoOwner(c: Suite, slots: seq<Slot>, nonce: Bytes, key: Bytes, creds: Credentials)
    requires !Owns(c, slots, nonce, creds)
    ensures Unambiguous(c, slots, nonce, key, creds)
  {
    hide Lawful, SlotKey;
  }

  /** An edit fails as unlocking does, and one that would leave no slot is refused for that. */
  lemma EditRefusals(c: Suite, file: Bytes, ending: Option<Error>, creds: Credentials, e: SlotEdit, coins: Coins)
    requires e.keepAll
    ensures Unlock(c, file, creds).Err? ==>
              EditFile(c, file, ending, creds, e, coins) == Written([], Some(Unlock(c, file, creds).error))
    ensures Unlock(c, file, creds).Ok? && Unlock(c, file, creds).value.0.version == 2 ==>
              var u := Unlock(c, file, creds).value.0;
              SelectorsMatch(c, u.slots, u.nonce, e) && Kept(c, u.slots, |u.slots|, u.nonce, e) == []
              && e.add.recipients == [] && e.add.passphrases == [] ==>
                EditFile(c, file, ending, creds, e, coins) == Written([], Some(NoSlotLeft))
  {
    hide Lawful, Unlock, SelectorsMatch, SelectorError, Kept;
    if Unlock(c, file, creds).Ok? {
      var u := Unlock(c, file, creds).value.0;
      SelectorsMatchIff(c, u.slots, u.nonce, e);
    }
  }

  /** Drop selectors without KeepAll are refused; an edit without either is a fast rewrap. */
  lemma EditWithoutKeep(c: Suite, file: Bytes, ending: Option<Error>, creds: Credentials, e: SlotEdit, coins: Coins)
    requires !e.keepAll
    ensures EditFile(c, file, ending, creds, e, coins)
         == if NoSelector(e) then FastRewrap(c, file, ending, creds, e.add, coins) else Written([], Some(DropWithoutKeep))
  {
    hide Lawful, FastRewrap;
  }

  /** A fast rewrap writes something exactly when its options are valid, the file unlocks and the
      encapsulations succeed. */
  lemma RewrapWritesIff(c: Suite, file: Bytes, ending: Option<Error>, creds: Credentials, opts: SealOptions, coins: Coins)
    ensures FastRewrap(c, file, ending, creds, opts, coins).bytes != [] <==>
              && Validate(opts).None? && Unlock(c, file, creds).Ok?
              && CanEncapsulate(c, Unlock(c, file, creds).value.0.key, Unlock(c, file, creds).value.0.nonce, opts, coins)
  {
    hide Lawful, Unlock, CanEncapsulate, FreshSlots, Validate, PrintSlots;
  }

  /** The credentials are among those a file is sealed to. */
  predicate Named(c: Suite, opts: SealOptions, creds: Credentials) {
    || (creds.identity.Some? && PublicKey(c, creds.identity.value) in opts.recipients)
    || (creds.passphrase.Some? && creds.passphrase.value in opts.passphrases)
  }

  /** A credential named by a drop selector owns none of the slots kept, so that an edit that does not
      add it again takes its access away. */
  lemma {:induction false} DroppedLoseAccess(c: Suite, slots: seq<Slot>, nonce: Bytes, e: SlotEdit)
    ensures forall d :: d in e.dropIdentities ==> !Owns(c, Kept(c, slots, |slots|, nonce, e), nonce, Credentials(Some(d), None))
    ensures forall q :: q in e.dropPassphrases ==> !Owns(c, Kept(c, slots, |slots|, nonce, e), nonce, Credentials(None, Some(q)))
  {
    hide Lawful, TryXWing, TryPass, Kept, KeptIndices;
    KeptExactly(c, slots, nonce, e);
    var idx, kept := KeptIndices(c, slots, |slots|, nonce, e), Kept(c, slots, |slots|, nonce, e);
    forall s | s in kept
      ensures forall d :: d in e.dropIdentities ==> SlotKey(c, s, nonce, Credentials(Some(d), None)).None?
      ensures forall q :: q in e.dropPassphrases ==> SlotKey(c, s, nonce, Credentials(None, Some(q))).None?
    {
      var j :| 0 <= j < |kept| && kept[j] == s;
      assert idx[j] in idx && Stays(c, slots, idx[j], nonce, e);
    }
  }
}
