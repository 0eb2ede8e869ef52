/** Whole runs: `Seal`, then any sequence of successful fast rewraps, deep rewraps and slot edits. */
module Runs {
  import opened Prelude
  import opened Crypto
  import opened Payload
  import opened PayloadTheorems
  import opened Header
  import opened Slots
  import opened Box
  import opened Edit
  import opened Rewraps
  import opened DeepPipeline
  import Binding

  // ----- well-formed v2 files

  datatype FileState = FileState(key: Bytes, nonce: Bytes, slots: seq<Slot>, payload: Bytes)

  /** The bytes of a file whose header MAC is the one its file key gives. */
  function FileOf(c: Suite, st: FileState): Bytes {
    Print(Signed(c, st.key, st.nonce, st.slots)) + st.payload
  }

  /** The slot carries exactly this key, sealed under some wrap key with the slot's own public part. */
  ghost predicate WrapsUnder(c: Suite, s: Slot, nonce: Bytes, key: Bytes, wrapKey: Bytes, public: nat) {
    && |s.body| == public + KEY + TAG
    && s.body[public..] == WrapSeal(c, wrapKey, key, SlotAad(nonce, s.kind, s.body[..public]))
  }

  ghost predicate Wraps(c: Suite, s: Slot, nonce: Bytes, key: Bytes) {
    || (s.kind == XWING_SLOT && exists w :: WrapsUnder(c, s, nonce, key, w, KEM_CIPHERTEXT))
    || (s.kind == PASS_SLOT && exists w :: WrapsUnder(c, s, nonce, key, w, PASS_PUBLIC))
  }

  ghost predicate AllWrap(c: Suite, slots: seq<Slot>, nonce: Bytes, key: Bytes) {
    forall s :: s in slots ==> Wraps(c, s, nonce, key)
  }

  /** None of the credentials under consideration is given a wrong key by these slots. */
  ghost predicate Clean(c: Suite, U: set<Credentials>, slots: seq<Slot>, nonce: Bytes, key: Bytes) {
    forall creds :: creds in U ==> Unambiguous(c, slots, nonce, key, creds)
  }

  ghost predicate Good(c: Suite, U: set<Credentials>, st: FileState, plain: Bytes) {
    && |st.key| == KEY && |st.nonce| == NONCE
    && 1 <= |st.slots| <= MAX_SLOTS && CountPass(st.slots) <= MAX_PASS_SLOTS
    && AllWrap(c, st.slots, st.nonce, st.key)
    && Clean(c, U, st.slots, st.nonce, st.key)
    && OpenAll(c, PayloadKey(c, st.key, st.nonce), st.payload, None) == Opened(plain, None)
  }

  lemma WrapsFit(c: Suite, slots: seq<Slot>, nonce: Bytes, key: Bytes)
    requires AllWrap(c, slots, nonce, key)
    ensures forall s :: s in slots ==> |s.body| <= MAX_BODY
  {
    hide Lawful, WrapSeal, SlotAad;
  }

  /** In a good file every credential either owns a slot and gets the plaintext, or gets nothing. */
  lemma {:induction false} GoodOpens(c: Suite, U: set<Credentials>, st: FileState, plain: Bytes, creds: Credentials)
    requires Good(c, U, st, plain) && creds in U
    ensures OpenFile(c, FileOf(c, st), None, creds)
         == if Owns(c, st.slots, st.nonce, creds) then Opened(plain, None) else Opened([], Some(MissingKey(st.slots, creds)))
    ensures Unlock(c, FileOf(c, st), creds).Ok? ==>
              Unlock(c, FileOf(c, st), creds).value == (Unlocked(st.key, st.nonce, 2, 0, st.slots), st.payload)
  {
    hide Lawful, OpenAll, Unambiguous, Owns, Unlock, Signed, MacOf, FindKey, CountPass, Wraps, PayloadKey;
    WrapsFit(c, st.slots, st.nonce, st.key);
    OpenWritten(c, st.key, st.nonce, st.slots, st.payload, None, creds);
    UnlockWritten(c, st.key, st.nonce, st.slots, st.payload, creds);
    FindKeyIff(c, st.slots, st.nonce, st.key, creds);
  }

  // ----- fresh slots are well formed

  lemma FreshWraps(c: Suite, key: Bytes, nonce: Bytes, opts: SealOptions, coins: Coins)
    requires |key| == KEY && CanEncapsulate(c, key, nonce, opts, coins)
    ensures AllWrap(c, FreshSlots(c, key, nonce, opts, coins), nonce, key)
  {
    hide Lawful, FreshXWing, FreshPass, Wraps;
    var slots, n := FreshSlots(c, key, nonce, opts, coins), |opts.recipients|;
    forall s | s in slots
      ensures Wraps(c, s, nonce, key)
    {
      var k :| 0 <= k < |slots| && slots[k] == s;
      if k < n {
        FreshXWingWraps(c, key, nonce, opts.recipients[k], coins.kem(k));
        assert s == FreshXWing(c, key, nonce, opts.recipients[k], coins.kem(k)).value;
      } else {
        FreshPassWraps(c, key, nonce, opts.passphrases[k - n], opts.argon, coins.salt(k - n));
        assert s == FreshPass(c, key, nonce, opts.passphrases[k - n], opts.argon, coins.salt(k - n));
      }
    }
  }

  lemma FreshXWingWraps(c: Suite, key: Bytes, nonce: Bytes, pub: Bytes, coins: Bytes)
    requires |key| == KEY && FreshXWing(c, key, nonce, pub, coins).Some?
    ensures Wraps(c, FreshXWing(c, key, nonce, pub, coins).value, nonce, key)
  {
    hide Lawful, WrapSeal, SlotAad;
    var s, e := FreshXWing(c, key, nonce, pub, coins).value, Encapsulate(c, pub, coins).value;
    assert s.body[..KEM_CIPHERTEXT] == e.1;
    assert WrapsUnder(c, s, nonce, key, XWingWrapKey(c, e.0, nonce), KEM_CIPHERTEXT);
  }

  lemma FreshPassWraps(c: Suite, key: Bytes, nonce: Bytes, pass: Bytes, p: ArgonParams, salt: SaltBytes)
    requires |key| == KEY
    ensures Wraps(c, FreshPass(c, key, nonce, pass, p, salt), nonce, key)
  {
    hide Lawful, WrapSeal, SlotAad, PrintArgon;
    var s, public := FreshPass(c, key, nonce, pass, p, salt), PrintArgon(p) + salt;
    assert s.body[..PASS_PUBLIC] == public;
    assert WrapsUnder(c, s, nonce, key, Argon(c, pass, salt, p), PASS_PUBLIC);
  }

  lemma {:induction false} CountPassAppend(a: seq<Slot>, b: seq<Slot>)
    ensures CountPass(a + b) == CountPass(a) + CountPass(b)
  {
    if a == [] {
      assert a + b == b;
    } else {
      assert (a + b)[1..] == a[1..] + b;
      CountPassAppend(a[1..], b);
    }
  }

  lemma {:induction false} CountPassUniform(slots: seq<Slot>, kind: Byte)
    requires forall s :: s in slots ==> s.kind == kind
    ensures CountPass(slots) == if kind == PASS_SLOT then |slots| else 0
  {
    if slots != [] {
      CountPassUniform(slots[1..], kind);
    }
  }

  lemma FreshPassCount(c: Suite, key: Bytes, nonce: Bytes, opts: SealOptions, coins: Coins)
    requires CanEncapsulate(c, key, nonce, opts, coins)
    ensures CountPass(FreshSlots(c, key, nonce, opts, coins)) == |opts.passphrases|
  {
    hide Lawful, FreshXWing, FreshPass, CountPass;
    var a, b := FreshRecipients(c, key, nonce, opts, coins), FreshPassphrases(c, key, nonce, opts, coins);
    assert forall i :: 0 <= i < |a| ==> a[i] == FreshXWing(c, key, nonce, opts.recipients[i], coins.kem(i)).value;
    assert forall i :: 0 <= i < |b| ==> b[i] == FreshPass(c, key, nonce, opts.passphrases[i], opts.argon, coins.salt(i));
    CountPassUniform(a, XWING_SLOT);
    CountPassUniform(b, PASS_SLOT);
    CountPassAppend(a, b);
  }

  /** A header over kept and fresh slots within the caps makes a good file of a payload that opens. */
  lemma RewriteGood(c: Suite, U: set<Credentials>, key: Bytes, nonce: Bytes, payload: Bytes, plain: Bytes,
                    kept: seq<Slot>, opts: SealOptions, coins: Coins)
    requires |key| == KEY && |nonce| == NONCE && CanEncapsulate(c, key, nonce, opts, coins) && CapError(kept, opts).None?
    requires AllWrap(c, kept, nonce, key) && Clean(c, U, kept, nonce, key)
    requires Clean(c, U, FreshSlots(c, key, nonce, opts, coins), nonce, key)
    requires OpenAll(c, PayloadKey(c, key, nonce), payload, None) == Opened(plain, None)
    ensures Good(c, U, FileState(key, nonce, kept + FreshSlots(c, key, nonce, opts, coins), payload), plain)
  {
    hide Lawful, CanEncapsulate, FreshSlots, OpenAll, Wraps, CountPass, SlotKey, PayloadKey, Validate;
    var added := FreshSlots(c, key, nonce, opts, coins);
    FreshWraps(c, key, nonce, opts, coins);
    FreshPassCount(c, key, nonce, opts, coins);
    CountPassAppend(kept, added);
    FreshSlotsFit(c, key, nonce, opts, coins);
  }

  // ----- runs

  datatype Op =
    | FastOp(creds: Credentials, opts: SealOptions, coins: Coins)
    | DeepOp(creds: Credentials, opts: SealOptions, drawn: FreshKey, coins: Coins)
    | EditOp(creds: Credentials, edit: SlotEdit, coins: Coins)

  function Apply(c: Suite, file: Bytes, op: Op): Written {
    match op
    case FastOp(creds, opts, coins) => FastRewrap(c, file, None, creds, opts, coins)
    case DeepOp(creds, opts, drawn, coins) => DeepRewrap(c, file, None, creds, opts, drawn, coins)
    case EditOp(creds, e, coins) => EditFile(c, file, None, creds, e, coins)
  }

  /** The file after all operations, if every one of them succeeds. */
  function RunAll(c: Suite, file: Bytes, ops: seq<Op>): Option<Bytes>
    decreases |ops|
  {
    if ops == [] then Some(file)
    else
      var w := Apply(c, file, ops[0]);
      if w.err.Some? then None else RunAll(c, w.bytes, ops[1..])
  }

  /** The key, nonce and options the operation makes its new slots with. */
  function Making(c: Suite, op: Op, u: Unlocked): (Bytes, Bytes, SealOptions) {
    match op
    case FastOp(_, opts, _) => (u.key, u.nonce, opts)
    case DeepOp(_, opts, drawn, _) => (drawn.key, drawn.nonce, opts)
    case EditOp(creds, e, _) =>
      (u.key, u.nonce,
       if e.keepAll && Decide(c, u, creds, e).Ok? then Decide(c, u, creds, e).value.1 else e.add)
  }

  /** The operation is run by one of the credentials considered, and its new slots mislead none of them. */
  ghost predicate CleanOp(c: Suite, U: set<Credentials>, file: Bytes, op: Op) {
    && op.creds in U
    && (Unlock(c, file, op.creds).Ok? ==>
          var (key, nonce, opts) := Making(c, op, Unlock(c, file, op.creds).value.0);
          CanEncapsulate(c, key, nonce, opts, op.coins) ==> Clean(c, U, FreshSlots(c, key, nonce, opts, op.coins), nonce, key))
  }

  ghost predicate CleanRun(c: Suite, U: set<Credentials>, file: Bytes, ops: seq<Op>)
    decreases |ops|
  {
    ops == [] || (CleanOp(c, U, file, ops[0]) && CleanRun(c, U, Apply(c, file, ops[0]).bytes, ops[1..]))
  }

  /** What a step needs of the file it starts from: it opens to `plain` under the credentials that
      run the step, and its slots, if it is a v2 file, all wrap its key. */
  ghost predicate Startable(c: Suite, U: set<Credentials>, file: Bytes, creds: Credentials, plain: Bytes) {
    Unlock(c, file, creds).Ok? ==>
      var (u, payload) := Unlock(c, file, creds).value;
      && AllWrap(c, u.slots, u.nonce, u.key) && Clean(c, U, u.slots, u.nonce, u.key)
      && OpenAll(c, PayloadKey(c, u.key, u.nonce), payload, None) == Opened(plain, None)
  }

  lemma {:induction false} FastStep(c: Suite, U: set<Credentials>, file: Bytes, op: Op, plain: Bytes) returns (st: FileState)
    requires op.FastOp? && Startable(c, U, file, op.creds, plain) && CleanOp(c, U, file, op)
    requires Apply(c, file, op).err.None?
    ensures Good(c, U, st, plain) && Apply(c, file, op).bytes == FileOf(c, st)
    ensures var u := Unlock(c, file, op.creds);
            && u.Ok? && CanEncapsulate(c, u.value.0.key, u.value.0.nonce, op.opts, op.coins)
            && st.nonce == u.value.0.nonce
            && st.slots == FreshSlots(c, u.value.0.key, u.value.0.nonce, op.opts, op.coins)
  {
    hide Lawful, Unlock, CanEncapsulate, FreshSlots, OpenAll, Wraps, CountPass, SlotKey, PayloadKey, Good, Signed;
    var (u, payload) := Unlock(c, file, op.creds).value;
    UnlockedSizes(c, file, op.creds);
    var slots := FreshSlots(c, u.key, u.nonce, op.opts, op.coins);
    assert CountPass([]) == 0 by { NoPass(); }
    RewriteGood(c, U, u.key, u.nonce, payload, plain, [], op.opts, op.coins);
    assert [] + slots == slots;
    st := FileState(u.key, u.nonce, slots, payload);
  }

  lemma NoPass()
    ensures CountPass([]) == 0
  {
  }

  lemma {:induction false} EditStep(c: Suite, U: set<Credentials>, file: Bytes, op: Op, plain: Bytes) returns (st: FileState)
    requires op.EditOp? && op.edit.keepAll && Startable(c, U, file, op.creds, plain) && CleanOp(c, U, file, op)
    requires Apply(c, file, op).err.None?
    ensures Good(c, U, st, plain) && Apply(c, file, op).bytes == FileOf(c, st)
  {
    hide Lawful, Unlock, CanEncapsulate, FreshSlots, OpenAll, Wraps, CountPass, SlotKey, PayloadKey, Good, Signed,
      SelectorError, SelectorErrorV1, CapError, Kept, AddV1, WithDefaults;
    var (u, payload) := Unlock(c, file, op.creds).value;
    UnlockedSizes(c, file, op.creds);
    var (kept, add) := Decide(c, u, op.creds, op.edit).value;
    if u.version != 1 {
      KeptSubset(c, u.slots, |u.slots|, u.nonce, op.edit);
    }
    RewriteGood(c, U, u.key, u.nonce, payload, plain, kept, add, op.coins);
    st := FileState(u.key, u.nonce, kept + FreshSlots(c, u.key, u.nonce, add, op.coins), payload);
  }

  /** A sealed file is good, whether sealed by `Seal` or as the second half of a deep rewrap. */
  lemma {:induction false} SealGood(c: Suite, U: set<Credentials>, plain: Bytes, opts: SealOptions, drawn: FreshKey, coins: Coins) returns (st: FileState)
    requires SealFile(c, plain, None, opts, drawn, coins).err.None?
    requires CanEncapsulate(c, drawn.key, drawn.nonce, opts, coins) ==>
               Clean(c, U, FreshSlots(c, drawn.key, drawn.nonce, opts, coins), drawn.nonce, drawn.key)
    ensures Good(c, U, st, plain) && SealFile(c, plain, None, opts, drawn, coins).bytes == FileOf(c, st)
    ensures CanEncapsulate(c, drawn.key, drawn.nonce, opts, coins)
    ensures st.nonce == drawn.nonce && st.slots == FreshSlots(c, drawn.key, drawn.nonce, opts, coins)
  {
    hide Lawful, CanEncapsulate, FreshSlots, OpenFrom, Wraps, CountPass, SlotKey, PayloadKey, Good, Signed, Plan, SealAll;
    var slots, key := FreshSlots(c, drawn.key, drawn.nonce, opts, coins), PayloadKey(c, drawn.key, drawn.nonce);
    SealedOpens(c, key, 0, plain);
    NoPass();
    RewriteGood(c, U, drawn.key, drawn.nonce, Sealed(c, key, plain), plain, [], opts, coins);
    assert [] + slots == slots;
    st := FileState(drawn.key, drawn.nonce, slots, Sealed(c, key, plain));
  }

  lemma {:induction false} Step(c: Suite, U: set<Credentials>, file: Bytes, op: Op, plain: Bytes) returns (st: FileState)
    requires Startable(c, U, file, op.creds, plain) && CleanOp(c, U, file, op)
    requires Apply(c, file, op).err.None?
    ensures Good(c, U, st, plain) && Apply(c, file, op).bytes == FileOf(c, st)
  {
    hide Lawful, Unlock, CanEncapsulate, FreshSlots, OpenAll, Validate, Clean, Wraps, Good, Signed, PayloadKey, SealFile, Decide, FileOf;
    match op
    case FastOp(_, _, _) => st := FastStep(c, U, file, op, plain);
    case DeepOp(_, opts, drawn, coins) => st := SealGood(c, U, plain, opts, drawn, coins);
    case EditOp(creds, e, coins) =>
      if e.keepAll {
        st := EditStep(c, U, file, op, plain);
      } else {
        st := FastStep(c, U, file, FastOp(creds, e.add, coins), plain);
      }
  }

  lemma {:induction false} GoodStartable(c: Suite, U: set<Credentials>, st: FileState, plain: Bytes, creds: Credentials)
    requires Good(c, U, st, plain) && creds in U
    ensures Startable(c, U, FileOf(c, st), creds, plain)
  {
    hide Lawful, Unlock, OpenAll, Wraps, CountPass, PayloadKey, FileOf, Clean, AllWrap;
    GoodOpens(c, U, st, plain, creds);
  }

  lemma {:induction false} RunKeeps(c: Suite, U: set<Credentials>, st: FileState, plain: Bytes, ops: seq<Op>) returns (end: FileState)
    requires Good(c, U, st, plain) && CleanRun(c, U, FileOf(c, st), ops) && RunAll(c, FileOf(c, st), ops).Some?
    ensures Good(c, U, end, plain) && RunAll(c, FileOf(c, st), ops) == Some(FileOf(c, end))
    decreases |ops|
  {
    hide Lawful, Good, Apply, FileOf, CleanOp, Startable;
    if ops == [] {
      end := st;
    } else {
      assert CleanOp(c, U, FileOf(c, st), ops[0]) && ops[0].creds in U by { CleanOpCreds(c, U, FileOf(c, st), ops[0]); }
      GoodStartable(c, U, st, plain, ops[0].creds);
      var next := Step(c, U, FileOf(c, st), ops[0], plain);
      end := RunKeeps(c, U, next, plain, ops[1..]);
    }
  }

  lemma CleanOpCreds(c: Suite, U: set<Credentials>, file: Bytes, op: Op)
    requires CleanOp(c, U, file, op)
    ensures op.creds in U
  {
  }

  /** Conservation over whole runs: after sealing and any sequence of successful operations the file
      is well formed - caps, MAC, every slot wrapping the one file key - and every credential either
      owns a slot and opens the file to the original plaintext, or is refused without output. */
  lemma {:induction false} Conservation(c: Suite, U: set<Credentials>, plain: Bytes, opts: SealOptions, drawn: FreshKey, coins: Coins, ops: seq<Op>)
      returns (st: FileState)
    requires SealFile(c, plain, None, opts, drawn, coins).err.None?
    requires CanEncapsulate(c, drawn.key, drawn.nonce, opts, coins) ==>
               Clean(c, U, FreshSlots(c, drawn.key, drawn.nonce, opts, coins), drawn.nonce, drawn.key)
    requires var file := SealFile(c, plain, None, opts, drawn, coins).bytes;
             CleanRun(c, U, file, ops) && RunAll(c, file, ops).Some?
    ensures Good(c, U, st, plain)
    ensures RunAll(c, SealFile(c, plain, None, opts, drawn, coins).bytes, ops) == Some(FileOf(c, st))
    ensures var file, n := FileOf(c, st), |FileOf(c, st)| - |st.payload|;
            && n >= MAC && file[n..] == st.payload
            && file[n - MAC..n] == Hmac(c, Hkdf(c, st.key, st.nonce, HeaderMac), file[..n - MAC])
    ensures forall creds :: creds in U ==>
              OpenFile(c, FileOf(c, st), None, creds)
              == if Owns(c, st.slots, st.nonce, creds) then Opened(plain, None) else Opened([], Some(MissingKey(st.slots, creds)))
  {
    hide Lawful, SealFile, Good, FileOf, RunAll, CleanRun, Clean, FreshSlots, CanEncapsulate, Owns, OpenFile;
    var first := SealGood(c, U, plain, opts, drawn, coins);
    st := RunKeeps(c, U, first, plain, ops);
    FileMac(c, st);
    forall creds | creds in U
      ensures OpenFile(c, FileOf(c, st), None, creds)
           == if Owns(c, st.slots, st.nonce, creds) then Opened(plain, None) else Opened([], Some(MissingKey(st.slots, creds)))
    {
      GoodOpens(c, U, st, plain, creds);
    }
  }

  /** A file in a good state carries the HMAC of its own header bytes, slots included. */
  lemma FileMac(c: Suite, st: FileState)
    ensures var file, n := FileOf(c, st), |FileOf(c, st)| - |st.payload|;
            && n >= MAC && file[n..] == st.payload
            && file[n - MAC..n] == Hmac(c, Hkdf(c, st.key, st.nonce, HeaderMac), file[..n - MAC])
  {
    hide Lawful, Print, Signed;
    Binding.MacIsOverHeader(c, st.key, st.nonce, st.slots);
    var h := Print(Signed(c, st.key, st.nonce, st.slots));
    var file := FileOf(c, st);
    assert file[..|h|] == h && file[|h|..] == st.payload;
    assert file[..|h| - MAC] == h[..|h| - MAC] && file[|h| - MAC..|h|] == h[|h| - MAC..];
  }

  /** The same from a legacy file: once a v1 file that opens has been through one operation, it is a
      good v2 file with the same plaintext, and stays one. */
  lemma {:induction false} UpgradeKeeps(c: Suite, U: set<Credentials>, file: Bytes, plain: Bytes, ops: seq<Op>) returns (st: FileState)
    requires ops != [] && CleanRun(c, U, file, ops) && RunAll(c, file, ops).Some?
    requires Unlock(c, file, ops[0].creds).Ok? && Unlock(c, file, ops[0].creds).value.0.version == 1
    requires OpenFile(c, file, None, ops[0].creds) == Opened(plain, None)
    ensures Good(c, U, st, plain) && RunAll(c, file, ops) == Some(FileOf(c, st))
  {
    hide Lawful, Good, FileOf, OpenAll, Apply, CleanOp, Wraps, SlotKey, PayloadKey;
    V1HasNoSlots(c, file, ops[0].creds);
    var first := Step(c, U, file, ops[0], plain);
    st := RunKeeps(c, U, first, plain, ops[1..]);
  }

  lemma V1HasNoSlots(c: Suite, file: Bytes, creds: Credentials)
    requires Unlock(c, file, creds).Ok? && Unlock(c, file, creds).value.0.version == 1
    ensures Unlock(c, file, creds).value.0.slots == []
  {
    hide Lawful, Parse, FindKey, Decapsulate;
  }

  // ----- sources that break off, and deep rewraps of payloads that do not open

  /** Sealing a source that breaks off gives, error and all, the file of a source that ends there
      exactly when what was read passes for the end. */
  lemma CutOffSealIff(c: Suite, s: Bytes, e: Error, opts: SealOptions, drawn: FreshKey, coins: Coins)
    requires Validate(opts).None? && CanEncapsulate(c, drawn.key, drawn.nonce, opts, coins)
    ensures SealFile(c, s, Some(e), opts, drawn, coins) == SealFile(c, s, None, opts, drawn, coins) <==> PassesForEnd(s, CHUNK, e)
    ensures SealFile(c, s, None, opts, drawn, coins).err.None?
  {
    hide Lawful, Validate, CanEncapsulate, FreshSlots, Plan, SealAll, SealEnd, Print, Signed, PayloadKey, PassesForEnd;
    CompleteSourceEnds(s);
    if PassesForEnd(s, CHUNK, e) {
      BrokenSourceComplete(0, s, e);
    } else {
      BrokenSourceNeverFinal(0, s, e);
    }
  }

  /** The one error of opening that the sealing side can take for the end of its input: `UnexpectedEof`
      before any plaintext. It arises exactly when the source breaks off with it after one full
      payload chunk, whatever that chunk holds. */
  lemma OpensToCutOff(c: Suite, key: Bytes, s: Bytes, ending: Option<Error>)
    ensures OpenAll(c, key, s, ending) == Opened([], Some(UnexpectedEof)) <==> ending == Some(UnexpectedEof) && |s| == FULL
  {
    hide Lawful, Nonce;
  }

  /** An opening cut off by `UnexpectedEof` has emitted whole chunks. */
  lemma {:induction false} CutOffOnBoundary(c: Suite, key: Bytes, i: nat, s: Bytes, ending: Option<Error>)
    requires OpenFrom(c, key, i, s, ending).err == Some(UnexpectedEof)
    ensures |OpenFrom(c, key, i, s, ending).plain| % CHUNK == 0
    decreases |s|
  {
    hide Lawful, Nonce;
    if |s| > FULL {
      CutOffOnBoundary(c, key, i + 1, s[FULL..], ending);
      OneChunkLess(|OpenFrom(c, key, i, s, ending).plain|);
    }
  }

  /** A deep rewrap that gets as far as its payload writes a final chunk exactly when it succeeds, and
      succeeds exactly when the old payload opens or its source breaks off with `UnexpectedEof` after
      one full payload chunk. It then seals the old plaintext, in the second case nothing. */
  lemma {:induction false} DeepSucceedsIff(c: Suite, file: Bytes, ending: Option<Error>, creds: Credentials, opts: SealOptions, drawn: FreshKey, coins: Coins)
    requires Validate(opts).None? && Unlock(c, file, creds).Ok? && CanEncapsulate(c, drawn.key, drawn.nonce, opts, coins)
    ensures var o, w := OpenFile(c, file, ending, creds), DeepRewrap(c, file, ending, creds, opts, drawn, coins);
            var header := Print(Signed(c, drawn.key, drawn.nonce, FreshSlots(c, drawn.key, drawn.nonce, opts, coins)));
            var plan := Plan(0, o.plain, o.err);
            && w == Written(header + SealAll(c, PayloadKey(c, drawn.key, drawn.nonce), plan), if HasFinal(plan) then None else o.err)
            && (HasFinal(plan) <==> o.err.None? || (ending == Some(UnexpectedEof) && |Unlock(c, file, creds).value.1| == FULL))
            && (HasFinal(plan) ==> plan == Plan(0, o.plain, None))
            && (HasFinal(plan) && o.err.Some? ==> o.plain == [])
  {
    hide Lawful, Unlock, Validate, CanEncapsulate, FreshSlots, OpenFrom, Plan, SealEnd, SealAll, Nonce, Signed, PayloadKey, HasFinal;
    var o := OpenFile(c, file, ending, creds);
    var (u, payload) := Unlock(c, file, creds).value;
    OpensToCutOff(c, PayloadKey(c, u.key, u.nonce), payload, ending);
    if o.err.Some? {
      BrokenSourceFinalIff(o.plain, o.err.value);
      if o.err == Some(UnexpectedEof) {
        CutOffOnBoundary(c, PayloadKey(c, u.key, u.nonce), 0, payload, ending);
      }
    } else {
      CompleteSourceEnds(o.plain);
      CompleteRunIsFinal(o.plain);
    }
  }

  lemma CompleteRunIsFinal(s: Bytes)
    ensures HasFinal(Plan(0, s, None))
  {
    hide Nonce, Plan;
    PlanShape(0, s);
    var plan := Plan(0, s, None);
    NonceFlag(|plan| - 1, true);
    assert |plan[|plan| - 1].nonce| == 12 && plan[|plan| - 1].nonce[11] == 1;
  }

  /** The input of that kind: the source gives a header and one full payload chunk, good or not, and
      breaks off with `UnexpectedEof`. Opening the file fails; a deep rewrap reports success and its
      result opens, to nothing, under everyone it was made for. */
  lemma {:induction false} CutOffDeepRewrap(c: Suite, key: KeyBytes, nonce: NonceBytes, slots: seq<Slot>, payload: Bytes, pass: Bytes,
                           opts: SealOptions, drawn: FreshKey, coins: Coins)
    requires SlotsFit(slots) && Unambiguous(c, slots, nonce, key, Holder(pass)) && Owns(c, slots, nonce, Holder(pass))
    requires |payload| == FULL && SealsTo(opts, pass)
    ensures var file := Print(Signed(c, key, nonce, slots)) + payload;
            var w := DeepRewrap(c, file, Some(UnexpectedEof), Holder(pass), opts, drawn, coins);
            && OpenFile(c, file, Some(UnexpectedEof), Holder(pass)).err == Some(UnexpectedEof)
            && w.err.None?
            && OpenFile(c, w.bytes, None, Holder(pass)) == Opened([], None)
  {
    hide Lawful, Unlock, Validate, CanEncapsulate, FreshSlots, OpenFrom, Plan, SealEnd, SealAll, Nonce, Signed, PayloadKey, HasFinal,
      Owns, Unambiguous, Clean, Print, FindKey, MacOf;
    var file, own := Print(Signed(c, key, nonce, slots)) + payload, Holder(pass);
    UnlockWritten(c, key, nonce, slots, payload, own);
    FindKeyIff(c, slots, nonce, key, own);
    OpensToCutOff(c, PayloadKey(c, key, nonce), payload, Some(UnexpectedEof));
    OwnSlots(c, drawn.key, drawn.nonce, opts, coins, pass);
    DeepSucceedsIff(c, file, Some(UnexpectedEof), own, opts, drawn, coins);
    CompleteSourceEnds([]);
    var st := SealGood(c, {own}, [], opts, drawn, coins);
    GoodOpens(c, {own}, st, [], own);
  }

  /** Invalid options are refused alike by all three operations, before anything else; then both
      kinds of rewrap fail as unlocking does. */
  lemma RefusedAlike(c: Suite, file: Bytes, plain: Bytes, ending: Option<Error>, creds: Credentials, opts: SealOptions,
                     drawn: FreshKey, coins: Coins)
    ensures var s, f, d := SealFile(c, plain, ending, opts, drawn, coins), FastRewrap(c, file, ending, creds, opts, coins),
                           DeepRewrap(c, file, ending, creds, opts, drawn, coins);
            && (Validate(opts).Some? ==> s == f == d == Written([], Validate(opts)))
            && (Validate(opts).None? && Unlock(c, file, creds).Err? ==>
                  f == d == Written([], Some(Unlock(c, file, creds).error)))
  {
    hide Lawful, Unlock, Validate;
  }

  /** Deep rewrap and opening commute on a payload that opens: a new credential gets the plaintext,
      everyone else is refused. */
  lemma {:induction false} DeepRewrapCommutes(c: Suite, file: Bytes, creds: Credentials, opts: SealOptions, drawn: FreshKey, coins: Coins,
                           other: Credentials)
    requires Validate(opts).None? && Unlock(c, file, creds).Ok? && OpenFile(c, file, None, creds).err.None?
    requires CanEncapsulate(c, drawn.key, drawn.nonce, opts, coins)
    requires Unambiguous(c, FreshSlots(c, drawn.key, drawn.nonce, opts, coins), drawn.nonce, drawn.key, other)
    ensures var w, slots := DeepRewrap(c, file, None, creds, opts, drawn, coins), FreshSlots(c, drawn.key, drawn.nonce, opts, coins);
            && w.err.None?
            && OpenFile(c, w.bytes, None, other)
               == if Owns(c, slots, drawn.nonce, other) then OpenFile(c, file, None, creds)
                  else Opened([], Some(MissingKey(slots, other)))
  {
    hide Lawful, Unlock, CanEncapsulate, FreshSlots, OpenFrom, Plan, SealAll, SealEnd, Signed, PayloadKey, Owns, Unambiguous, Print,
      MissingKey;
    var plain, slots := OpenFile(c, file, None, creds).plain, FreshSlots(c, drawn.key, drawn.nonce, opts, coins);
    var newKey := PayloadKey(c, drawn.key, drawn.nonce);
    CompleteSourceEnds(plain);
    SealedOpens(c, newKey, 0, plain);
    FreshSlotsFit(c, drawn.key, drawn.nonce, opts, coins);
    OpenWritten(c, drawn.key, drawn.nonce, slots, Sealed(c, newKey, plain), None, other);
  }

  /** Whatever such a failed run left behind is never accepted, if nothing but its own chunks opens. */
  lemma {:induction false} WithoutFinalRejected(c: Suite, key: Bytes, plan: seq<Chunk>, i: nat, s: Bytes, ending: Option<Error>)
    requires forall k :: 0 <= k < |plan| ==> |plan[k].nonce| == 12 && plan[k].nonce[11] == 0
    requires NoForgery(c, key, plan, s)
    ensures OpenFrom(c, key, i, s, ending).err.Some?
    decreases |s|
  {
    hide Lawful, Nonce;
    if |s| > FULL {
      NoForgeryDrop(c, key, plan, s, FULL);
      WithoutFinalRejected(c, key, plan, i + 1, s[FULL..], ending);
    } else {
      NonceFlag(i, true);
      assert s[0..|s|] == s;
    }
  }

  // ----- a run that needs no hypothesis

  /** Credentials holding one passphrase. */
  function Holder(pass: Bytes): Credentials {
    Credentials(None, Some(pass))
  }

  predicate SealsTo(opts: SealOptions, pass: Bytes) {
    opts.recipients == [] && opts.passphrases == [pass] && ArgonInRange(opts.argon)
  }

  /** A fast or deep rewrap by the holder of the passphrase, to that passphrase. */
  predicate OwnOp(op: Op, pass: Bytes) {
    (op.FastOp? || op.DeepOp?) && op.creds == Holder(pass) && SealsTo(op.opts, pass)
  }

  lemma OwnSlots(c: Suite, key: KeyBytes, nonce: Bytes, opts: SealOptions, coins: Coins, pass: Bytes)
    requires SealsTo(opts, pass)
    ensures Validate(opts).None? && CanEncapsulate(c, key, nonce, opts, coins)
    ensures Clean(c, {Holder(pass)}, FreshSlots(c, key, nonce, opts, coins), nonce, key)
    ensures Owns(c, FreshSlots(c, key, nonce, opts, coins), nonce, Holder(pass))
  {
    hide Lawful, FreshPass, TryPass, Argon;
    var s := FreshPass(c, key, nonce, pass, opts.argon, coins.salt(0));
    FreshPassOpens(c, key, nonce, pass, opts.argon, coins.salt(0));
    assert FreshSlots(c, key, nonce, opts, coins) == [s];
    assert SlotKey(c, s, nonce, Holder(pass)) == Some(key);
  }

  /** The holder of a passphrase can rewrap a file to it any number of times: each operation
      succeeds, no slot misleads the holder, and the holder still owns a slot at the end. */
  lemma {:induction false} OwnRun(c: Suite, st: FileState, plain: Bytes, ops: seq<Op>, pass: Bytes) returns (last: FileState)
    requires Good(c, {Holder(pass)}, st, plain) && Owns(c, st.slots, st.nonce, Holder(pass))
    requires forall i :: 0 <= i < |ops| ==> OwnOp(ops[i], pass)
    ensures RunAll(c, FileOf(c, st), ops) == Some(FileOf(c, last)) && CleanRun(c, {Holder(pass)}, FileOf(c, st), ops)
    ensures Good(c, {Holder(pass)}, last, plain) && Owns(c, last.slots, last.nonce, Holder(pass))
    decreases |ops|
  {
    hide Lawful, Good, FileOf, Owns, OwnOp, Apply, CleanOp, Clean;
    last := st;
    if ops != [] {
      assert OwnOp(ops[0], pass);
      var next := OwnStep(c, st, plain, ops[0], pass);
      last := OwnRun(c, next, plain, ops[1..], pass);
    }
  }

  lemma {:induction false} OwnStep(c: Suite, st: FileState, plain: Bytes, op: Op, pass: Bytes) returns (next: FileState)
    requires Good(c, {Holder(pass)}, st, plain) && Owns(c, st.slots, st.nonce, Holder(pass)) && OwnOp(op, pass)
    ensures CleanOp(c, {Holder(pass)}, FileOf(c, st), op)
    ensures Apply(c, FileOf(c, st), op).err.None? && Apply(c, FileOf(c, st), op).bytes == FileOf(c, next)
    ensures Good(c, {Holder(pass)}, next, plain) && Owns(c, next.slots, next.nonce, Holder(pass))
  {
    hide Lawful, FileOf, Owns, Unlock, OpenAll, FreshSlots, CanEncapsulate, Validate, Clean, Wraps, Signed, PayloadKey, CountPass,
      AllWrap, Good, Plan, SealAll, MissingKey;
    var U, file := {Holder(pass)}, FileOf(c, st);
    GoodSizes(c, U, st, plain);
    GoodOpens(c, U, st, plain, Holder(pass));
    assert Unlock(c, file, Holder(pass)).Ok?;
    match op
    case FastOp(_, opts, coins) =>
      OwnSlots(c, st.key, st.nonce, opts, coins, pass);
      GoodStartable(c, U, st, plain, Holder(pass));
      next := FastStep(c, U, file, op, plain);
    case DeepOp(_, opts, drawn, coins) =>
      OwnSlots(c, drawn.key, drawn.nonce, opts, coins, pass);
      CompleteSourceEnds(plain);
      next := SealGood(c, U, plain, opts, drawn, coins);
  }

  lemma GoodSizes(c: Suite, U: set<Credentials>, st: FileState, plain: Bytes)
    requires Good(c, U, st, plain)
    ensures |st.key| == KEY && |st.nonce| == NONCE
  {
  }

  /** Without any hypothesis on the suite: whatever is sealed to a passphrase and rewrapped to it any
      number of times, fast or deep, is still opened by it, and to the same plaintext. */
  lemma {:induction false} HolderKeepsAccess(c: Suite, plain: Bytes, opts: SealOptions, drawn: FreshKey, coins: Coins, ops: seq<Op>, pass: Bytes)
    requires SealsTo(opts, pass) && forall i :: 0 <= i < |ops| ==> OwnOp(ops[i], pass)
    ensures var file := SealFile(c, plain, None, opts, drawn, coins);
            && file.err.None? && RunAll(c, file.bytes, ops).Some?
            && OpenFile(c, RunAll(c, file.bytes, ops).value, None, Holder(pass)) == Opened(plain, None)
  {
    hide Lawful, Good, FileOf, Owns, OwnOp, Apply, CleanOp, Clean, FreshSlots, CanEncapsulate, Validate, OpenFile, SealAll, Plan, Print, Signed;
    OwnSlots(c, drawn.key, drawn.nonce, opts, coins, pass);
    CompleteSourceEnds(plain);
    var first := SealGood(c, {Holder(pass)}, plain, opts, drawn, coins);
    var last := OwnRun(c, first, plain, ops, pass);
    GoodOpens(c, {Holder(pass)}, last, plain, Holder(pass));
  }
}
