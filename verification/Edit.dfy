/** `RewrapEdit`: dropping and adding key slots while the others stay as they are. */
module Edit {
  import opened Prelude
  import opened Crypto
  import opened Streams
  import opened Header
  import opened Slots
  import opened Box

  datatype SlotEdit = SlotEdit(
    keepAll: bool,
    dropSlots: seq<int>,
    dropPassSlots: bool,
    dropIdentities: seq<Bytes>,
    dropPassphrases: seq<Bytes>,
    add: SealOptions)

  predicate HasDrop(e: SlotEdit) {
    e.dropSlots != [] || e.dropPassSlots || e.dropIdentities != [] || e.dropPassphrases != []
  }

  // ----- which slots the selectors claim

  predicate OpensUnderIdentity(c: Suite, s: Slot, nonce: Bytes, seed: Bytes) {
    s.kind == XWING_SLOT && TryXWing(c, s, nonce, seed).Some?
  }

  predicate OpensUnderPassphrase(c: Suite, s: Slot, nonce: Bytes, pass: Bytes) {
    s.kind == PASS_SLOT && TryPass(c, s, nonce, pass).Some?
  }

  predicate ClaimedByKind(s: Slot, e: SlotEdit) {
    e.dropPassSlots && s.kind == PASS_SLOT
  }

  predicate ClaimedByCredential(c: Suite, s: Slot, nonce: Bytes, e: SlotEdit) {
    || (exists d :: d in e.dropIdentities && OpensUnderIdentity(c, s, nonce, d))
    || (exists q :: q in e.dropPassphrases && OpensUnderPassphrase(c, s, nonce, q))
  }

  /** Some selector of the edit claims slot i (numbered i + 1 in listings). */
  predicate Claimed(c: Suite, slots: seq<Slot>, i: nat, nonce: Bytes, e: SlotEdit)
    requires i < |slots|
  {
    i + 1 in e.dropSlots || ClaimedByKind(slots[i], e) || ClaimedByCredential(c, slots[i], nonce, e)
  }

  /** The unclaimed ones among the first n slots, in order. */
  function Kept(c: Suite, slots: seq<Slot>, n: nat, nonce: Bytes, e: SlotEdit): seq<Slot>
    requires n <= |slots|
  {
    if n == 0 then []
    else Kept(c, slots, n - 1, nonce, e) + if Claimed(c, slots, n - 1, nonce, e) then [] else [slots[n - 1]]
  }

  /** The complaint about a selector that claims nothing. */
  function SelectorError(c: Suite, slots: seq<Slot>, nonce: Bytes, e: SlotEdit): Option<Error> {
    if exists n :: n in e.dropSlots && !(1 <= n <= |slots|) then Some(NoSuchSlot)
    else if e.dropPassSlots && !(exists s :: s in slots && s.kind == PASS_SLOT) then Some(NoPassphraseSlot)
    else if exists d :: d in e.dropIdentities && !(exists s :: s in slots && OpensUnderIdentity(c, s, nonce, d)) then
      Some(UnmatchedIdentity)
    else if exists q :: q in e.dropPassphrases && !(exists s :: s in slots && OpensUnderPassphrase(c, s, nonce, q)) then
      Some(UnmatchedPassphrase)
    else None
  }

  // ----- a v1 file has one implicit slot, owned by the credential that opened it

  predicate IsOwnIdentity(c: Suite, u: Unlocked, creds: Credentials, d: Bytes) {
    u.mode == V1_RECIPIENT && creds.identity.Some? && PublicKey(c, d) == PublicKey(c, creds.identity.value)
  }

  predicate IsOwnPassphrase(u: Unlocked, creds: Credentials, q: Bytes) {
    u.mode == V1_PASSPHRASE && creds.passphrase == Some(q)
  }

  predicate DropsV1(c: Suite, u: Unlocked, creds: Credentials, e: SlotEdit) {
    || e.dropSlots != []
    || (e.dropPassSlots && u.mode == V1_PASSPHRASE)
    || (exists d :: d in e.dropIdentities && IsOwnIdentity(c, u, creds, d))
    || (exists q :: q in e.dropPassphrases && IsOwnPassphrase(u, creds, q))
  }

  function SelectorErrorV1(c: Suite, u: Unlocked, creds: Credentials, e: SlotEdit): Option<Error> {
    if exists n :: n in e.dropSlots && n != 1 then Some(NoSuchSlot)
    else if e.dropPassSlots && u.mode != V1_PASSPHRASE then Some(NoPassphraseSlot)
    else if exists d :: d in e.dropIdentities && !IsOwnIdentity(c, u, creds, d) then Some(UnmatchedIdentity)
    else if exists q :: q in e.dropPassphrases && !IsOwnPassphrase(u, creds, q) then Some(UnmatchedPassphrase)
    else None
  }

  /** What is added to a v1 file: the credential that opened it comes first, unless dropped. */
  function AddV1(c: Suite, u: Unlocked, creds: Credentials, e: SlotEdit): SealOptions {
    if DropsV1(c, u, creds, e) then e.add
    else if u.mode == V1_RECIPIENT && creds.identity.Some? then
      e.add.(recipients := [PublicKey(c, creds.identity.value)] + e.add.recipients)
    else if u.mode == V1_PASSPHRASE && creds.passphrase.Some? then
      e.add.(passphrases := [creds.passphrase.value] + e.add.passphrases)
    else e.add
  }

  // ----- the checks before writing, and the whole edit

  function WithDefaults(add: SealOptions): SealOptions {
    if add.passphrases != [] && add.argon == NO_ARGON then add.(argon := DEFAULT_ARGON) else add
  }

  function CountPass(slots: seq<Slot>): (n: nat)
    ensures n <= |slots|
  {
    if slots == [] then 0 else (if slots[0].kind == PASS_SLOT then 1 else 0) + CountPass(slots[1..])
  }

  function CapError(kept: seq<Slot>, add: SealOptions): Option<Error> {
    var total := |kept| + |add.recipients| + |add.passphrases|;
    if |add.recipients| + |add.passphrases| > 0 && Validate(add).Some? then Validate(add)
    else if total == 0 then Some(NoSlotLeft)
    else if total > MAX_SLOTS then Some(TooManySlots)
    else if |add.passphrases| + CountPass(kept) > MAX_PASS_SLOTS then Some(TooManyPassphrases)
    else None
  }

  /** What the edit decides from an unlocked file: the slots kept and the slots to add. */
  function Decide(c: Suite, u: Unlocked, creds: Credentials, e: SlotEdit): Result<(seq<Slot>, SealOptions), Error> {
    var complaint := if u.version == 1 then SelectorErrorV1(c, u, creds, e) else SelectorError(c, u.slots, u.nonce, e);
    if complaint.Some? then Err(complaint.value)
    else
      var kept := if u.version == 1 then [] else Kept(c, u.slots, |u.slots|, u.nonce, e);
      var add := WithDefaults(if u.version == 1 then AddV1(c, u, creds, e) else e.add);
      if CapError(kept, add).Some? then Err(CapError(kept, add).value) else Ok((kept, add))
  }

  function EditFile(c: Suite, file: Bytes, ending: Option<Error>, creds: Credentials, e: SlotEdit, coins: Coins): Written {
    if HasDrop(e) && !e.keepAll then Written([], Some(DropWithoutKeep))
    else if !e.keepAll then FastRewrap(c, file, ending, creds, e.add, coins)
    else match Unlock(c, file, creds)
      case Err(x) => Written([], Some(x))
      case Ok((u, payload)) =>
        match Decide(c, u, creds, e)
        case Err(x) => Written([], Some(x))
        case Ok((kept, add)) => Rewritten(c, u, payload, ending, kept, add, coins)
  }

  // ----- the loops

  /** One slot against the credential selectors: whether any claims it, and which are now matched. */
  method MatchIdentities(c: Suite, s: Slot, nonce: Bytes, ids: seq<Bytes>, matched: array<bool>) returns (claimed: bool)
    requires matched.Length == |ids|
    modifies matched
    ensures claimed <==> exists d :: d in ids && OpensUnderIdentity(c, s, nonce, d)
    ensures forall j :: 0 <= j < |ids| ==> (matched[j] <==> old(matched[j]) || OpensUnderIdentity(c, s, nonce, ids[j]))
  {
    hide Lawful, TryXWing;
    claimed := false;
    if s.kind == XWING_SLOT {
      for j := 0 to |ids|
        invariant claimed <==> exists k :: 0 <= k < j && OpensUnderIdentity(c, s, nonce, ids[k])
        invariant forall k :: 0 <= k < j ==> (matched[k] <==> old(matched[k]) || OpensUnderIdentity(c, s, nonce, ids[k]))
        invariant forall k :: j <= k < |ids| ==> matched[k] == old(matched[k])
      {
        var key := TryXWing(c, s, nonce, ids[j]);
        if key.Some? {
          matched[j] := true;
          claimed := true;
        }
      }
    }
  }

  method MatchPassphrases(c: Suite, s: Slot, nonce: Bytes, passes: seq<Bytes>, matched: array<bool>) returns (claimed: bool)
    requires matched.Length == |passes|
    modifies matched
    ensures claimed <==> exists q :: q in passes && OpensUnderPassphrase(c, s, nonce, q)
    ensures forall j :: 0 <= j < |passes| ==>
              (matched[j] <==> old(matched[j]) || OpensUnderPassphrase(c, s, nonce, passes[j]))
  {
    hide Lawful, TryPass;
    claimed := false;
    if s.kind == PASS_SLOT {
      for j := 0 to |passes|
        invariant claimed <==> exists k :: 0 <= k < j && OpensUnderPassphrase(c, s, nonce, passes[k])
        invariant forall k :: 0 <= k < j ==> (matched[k] <==> old(matched[k]) || OpensUnderPassphrase(c, s, nonce, passes[k]))
        invariant forall k :: j <= k < |passes| ==> matched[k] == old(matched[k])
      {
        var key := TryPass(c, s, nonce, passes[j]);
        if key.Some? {
          matched[j] := true;
          claimed := true;
        }
      }
    }
  }

  /** The slot numbers to drop, or nothing when one is out of range. */
  method CollectDrops(numbers: seq<int>, count: nat) returns (drops: Option<set<int>>)
    ensures drops.None? <==> exists n :: n in numbers && !(1 <= n <= count)
    ensures drops.Some? ==> forall n :: n in drops.value <==> n in numbers
  {
    var index: set<int> := {};
    for k := 0 to |numbers|
      invariant forall n :: n in index <==> n in numbers[..k]
      invariant forall n :: n in numbers[..k] ==> 1 <= n <= count
    {
      var n := numbers[k];
      assert n in numbers;
      if n < 1 || n > count {
        return None;
      }
      index := index + {n};
    }
    assert numbers[..|numbers|] == numbers;
    return Some(index);
  }

  /** The slot loop for a v2 file. */
  method ScanSlots(c: Suite, slots: seq<Slot>, nonce: Bytes, e: SlotEdit)
      returns (kept: seq<Slot>, complaint: Option<Error>)
    ensures complaint == SelectorError(c, slots, nonce, e)
    ensures complaint.None? ==> kept == Kept(c, slots, |slots|, nonce, e)
  {
    hide Lawful, OpensUnderIdentity, OpensUnderPassphrase, IdsMatched, PassesMatched;
    kept := [];
    var drops := CollectDrops(e.dropSlots, |slots|);
    if drops.None? {
      return [], Some(NoSuchSlot);
    }
    var dropIndex := drops.value;
    var ids, passes := new bool[|e.dropIdentities|](_ => false), new bool[|e.dropPassphrases|](_ => false);
    var sawPass := false;
    NothingMatched(c, slots, nonce, e, ids[..], passes[..]);
    for i := 0 to |slots|
      invariant kept == Kept(c, slots, i, nonce, e)
      invariant sawPass <==> e.dropPassSlots && exists k :: 0 <= k < i && slots[k].kind == PASS_SLOT
      invariant IdsMatched(c, slots, i, nonce, e.dropIdentities, ids[..])
      invariant PassesMatched(c, slots, i, nonce, e.dropPassphrases, passes[..])
    {
      var s := slots[i];
      ghost var idsBefore, passesBefore := ids[..], passes[..];
      var drop := i + 1 in dropIndex;
      var byId := MatchIdentities(c, s, nonce, e.dropIdentities, ids);
      if s.kind == PASS_SLOT && e.dropPassSlots {
        sawPass, drop := true, true;
      }
      var byPass := MatchPassphrases(c, s, nonce, e.dropPassphrases, passes);
      drop := drop || byId || byPass;
      IdsStep(c, slots, i, nonce, e.dropIdentities, idsBefore, ids[..]);
      PassesStep(c, slots, i, nonce, e.dropPassphrases, passesBefore, passes[..]);
      if !drop {
        kept := kept + [s];
      }
    }
    if e.dropPassSlots && !sawPass {
      return kept, Some(NoPassphraseSlot);
    }
    var all := AllSet(ids);
    IdsVerdict(c, slots, nonce, e.dropIdentities, ids[..]);
    if !all {
      return kept, Some(UnmatchedIdentity);
    }
    all := AllSet(passes);
    PassesVerdict(c, slots, nonce, e.dropPassphrases, passes[..]);
    if !all {
      return kept, Some(UnmatchedPassphrase);
    }
    return kept, None;
  }

  /** Flag j says whether one of the first n slots opens under identity j. */
  ghost predicate IdsMatched(c: Suite, slots: seq<Slot>, n: nat, nonce: Bytes, ds: seq<Bytes>, flags: seq<bool>)
    requires n <= |slots|
  {
    && |flags| == |ds|
    && forall j :: 0 <= j < |ds| ==> (flags[j] <==> exists k :: 0 <= k < n && OpensUnderIdentity(c, slots[k], nonce, ds[j]))
  }

  ghost predicate PassesMatched(c: Suite, slots: seq<Slot>, n: nat, nonce: Bytes, qs: seq<Bytes>, flags: seq<bool>)
    requires n <= |slots|
  {
    && |flags| == |qs|
    && forall j :: 0 <= j < |qs| ==> (flags[j] <==> exists k :: 0 <= k < n && OpensUnderPassphrase(c, slots[k], nonce, qs[j]))
  }

  lemma NothingMatched(c: Suite, slots: seq<Slot>, nonce: Bytes, e: SlotEdit, ids: seq<bool>, passes: seq<bool>)
    requires |ids| == |e.dropIdentities| && |passes| == |e.dropPassphrases|
    requires (forall j :: 0 <= j < |ids| ==> !ids[j]) && (forall j :: 0 <= j < |passes| ==> !passes[j])
    ensures IdsMatched(c, slots, 0, nonce, e.dropIdentities, ids)
    ensures PassesMatched(c, slots, 0, nonce, e.dropPassphrases, passes)
  {
  }

  lemma IdsStep(c: Suite, slots: seq<Slot>, n: nat, nonce: Bytes, ds: seq<Bytes>, before: seq<bool>, after: seq<bool>)
    requires n < |slots| && IdsMatched(c, slots, n, nonce, ds, before) && |after| == |ds|
    requires forall j :: 0 <= j < |ds| ==> (after[j] <==> before[j] || OpensUnderIdentity(c, slots[n], nonce, ds[j]))
    ensures IdsMatched(c, slots, n + 1, nonce, ds, after)
  {
    hide Lawful, OpensUnderIdentity;
  }

  lemma PassesStep(c: Suite, slots: seq<Slot>, n: nat, nonce: Bytes, qs: seq<Bytes>, before: seq<bool>, after: seq<bool>)
    requires n < |slots| && PassesMatched(c, slots, n, nonce, qs, before) && |after| == |qs|
    requires forall j :: 0 <= j < |qs| ==> (after[j] <==> before[j] || OpensUnderPassphrase(c, slots[n], nonce, qs[j]))
    ensures PassesMatched(c, slots, n + 1, nonce, qs, after)
  {
    hide Lawful, OpensUnderPassphrase;
  }

  lemma IdsVerdict(c: Suite, slots: seq<Slot>, nonce: Bytes, ds: seq<Bytes>, flags: seq<bool>)
    requires IdsMatched(c, slots, |slots|, nonce, ds, flags)
    ensures (forall j :: 0 <= j < |flags| ==> flags[j])
       <==> !(exists d :: d in ds && !(exists s :: s in slots && OpensUnderIdentity(c, s, nonce, d)))
  {
    hide Lawful, OpensUnderIdentity;
    if j :| 0 <= j < |flags| && !flags[j] {
      assert ds[j] in ds;
      assert forall s :: s in slots ==> !OpensUnderIdentity(c, s, nonce, ds[j]);
    }
  }

  lemma PassesVerdict(c: Suite, slots: seq<Slot>, nonce: Bytes, qs: seq<Bytes>, flags: seq<bool>)
    requires PassesMatched(c, slots, |slots|, nonce, qs, flags)
    ensures (forall j :: 0 <= j < |flags| ==> flags[j])
       <==> !(exists q :: q in qs && !(exists s :: s in slots && OpensUnderPassphrase(c, s, nonce, q)))
  {
    hide Lawful, OpensUnderPassphrase;
    if j :| 0 <= j < |flags| && !flags[j] {
      assert qs[j] in qs;
      assert forall s :: s in slots ==> !OpensUnderPassphrase(c, s, nonce, qs[j]);
    }
  }

  method AllSet(a: array<bool>) returns (all: bool)
    ensures all <==> forall j :: 0 <= j < a.Length ==> a[j]
  {
    for j := 0 to a.Length
      invariant forall k :: 0 <= k < j ==> a[k]
    {
      if !a[j] {
        return false;
      }
    }
    return true;
  }

  /** The loops for a v1 file. */
  method ScanV1(c: Suite, u: Unlocked, creds: Credentials, e: SlotEdit) returns (add: SealOptions, complaint: Option<Error>)
    requires u.mode == V1_RECIPIENT ==> creds.identity.Some?
    requires u.mode == V1_PASSPHRASE ==> creds.passphrase.Some?
    ensures complaint == SelectorErrorV1(c, u, creds, e)
    ensures complaint.None? ==> add == AddV1(c, u, creds, e)
  {
    hide Lawful;
    add := e.add;
    var dropped := e.dropSlots != [];
    for k := 0 to |e.dropSlots|
      invariant forall j :: 0 <= j < k ==> e.dropSlots[j] == 1
    {
      assert e.dropSlots[k] in e.dropSlots;
      if e.dropSlots[k] != 1 {
        return add, Some(NoSuchSlot);
      }
    }
    var idsMatched, passesMatched := true, true;
    for j := 0 to |e.dropIdentities|
      invariant dropped <==> e.dropSlots != [] || exists k :: 0 <= k < j && IsOwnIdentity(c, u, creds, e.dropIdentities[k])
      invariant idsMatched <==> forall k :: 0 <= k < j ==> IsOwnIdentity(c, u, creds, e.dropIdentities[k])
    {
      var own := u.mode == V1_RECIPIENT && PublicKey(c, e.dropIdentities[j]) == PublicKey(c, creds.identity.value);
      assert own == IsOwnIdentity(c, u, creds, e.dropIdentities[j]);
      if own {
        dropped := true;
      } else {
        idsMatched := false;
      }
    }
    ghost var soFar := dropped;
    for j := 0 to |e.dropPassphrases|
      invariant dropped <==> soFar || exists k :: 0 <= k < j && IsOwnPassphrase(u, creds, e.dropPassphrases[k])
      invariant passesMatched <==> forall k :: 0 <= k < j ==> IsOwnPassphrase(u, creds, e.dropPassphrases[k])
    {
      var own := u.mode == V1_PASSPHRASE && e.dropPassphrases[j] == creds.passphrase.value;
      assert own == IsOwnPassphrase(u, creds, e.dropPassphrases[j]);
      if own {
        dropped := true;
      } else {
        passesMatched := false;
      }
    }
    if e.dropPassSlots {
      if u.mode != V1_PASSPHRASE {
        return add, Some(NoPassphraseSlot);
      }
      dropped := true;
    }
    if !idsMatched {
      return add, Some(UnmatchedIdentity);
    }
    if !passesMatched {
      return add, Some(UnmatchedPassphrase);
    }
    if !dropped {
      if u.mode == V1_RECIPIENT {
        add := add.(recipients := [PublicKey(c, creds.identity.value)] + add.recipients);
      } else if u.mode == V1_PASSPHRASE {
        add := add.(passphrases := [creds.passphrase.value] + add.passphrases);
      }
    }
    return add, None;
  }

  method CountPassSlots(slots: seq<Slot>) returns (n: nat)
    ensures n == CountPass(slots)
  {
    n := 0;
    for i := 0 to |slots|
      invariant CountPass(slots) == n + CountPass(slots[i..])
    {
      assert slots[i..][1..] == slots[i + 1..];
      if slots[i].kind == PASS_SLOT {
        n := n + 1;
      }
    }
  }

  lemma UnlockedV1Owns(c: Suite, file: Bytes, creds: Credentials)
    requires Unlock(c, file, creds).Ok? && Unlock(c, file, creds).value.0.version == 1
    ensures var u := Unlock(c, file, creds).value.0;
            || (u.mode == V1_RECIPIENT && creds.identity.Some?)
            || (u.mode == V1_PASSPHRASE && creds.passphrase.Some?)
  {
  }

  method RewrapEdit(c: Suite, dst: Sink, src: Source, creds: Credentials, e: SlotEdit, coins: Coins)
      returns (err: Option<Error>)
    requires !dst.failed
    modifies dst, src
    ensures var w := EditFile(c, old(src.rest), src.ending, creds, e, coins);
            Delivered(old(dst.data), dst, w.bytes, err, w.err)
  {
    hide Lawful, Unlock, Validate, Rewritten, FastRewrap, SelectorError, SelectorErrorV1, AddV1, Kept, CountPass, WrotePart;
    assert dst.data == dst.data + [];
    if HasDrop(e) && !e.keepAll {
      return Some(DropWithoutKeep);
    }
    if !e.keepAll {
      err := RewrapFast(c, dst, src, creds, e.add, coins);
      return;
    }
    var br := new BufReader(src, 64 * 1024 + TAG);
    assert br.Contents() == src.rest;
    var unlocked := RunUnlock(c, br, creds);
    if unlocked.Err? {
      return Some(unlocked.error);
    }
    var u := unlocked.value;
    var kept: seq<Slot>, add, complaint := [], e.add, None;
    if u.version == 1 {
      UnlockedV1Owns(c, old(src.rest), creds);
      add, complaint := ScanV1(c, u, creds, e);
    } else {
      kept, complaint := ScanSlots(c, u.slots, u.nonce, e);
    }
    if complaint.Some? {
      return complaint;
    }
    if add.passphrases != [] && add.argon == NO_ARGON {
      add := add.(argon := DEFAULT_ARGON);
    }
    if |add.recipients| + |add.passphrases| > 0 {
      var invalid := Validate(add);
      if invalid.Some? {
        return invalid;
      }
    }
    var passCount := CountPassSlots(kept);
    passCount := passCount + |add.passphrases|;
    var total := |kept| + |add.recipients| + |add.passphrases|;
    if total == 0 {
      return Some(NoSlotLeft);
    }
    if total > MAX_SLOTS {
      return Some(TooManySlots);
    }
    if passCount > MAX_PASS_SLOTS {
      return Some(TooManyPassphrases);
    }
    err := RewriteWith(c, dst, br, u, kept, add, coins);
  }
}
