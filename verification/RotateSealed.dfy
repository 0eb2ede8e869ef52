/** `rotate` over sealed files: what its rows say about who opens the files afterwards. */
module RotateSealed {
  import opened Prelude
  import opened Crypto
  import opened Slots
  import opened Box
  import opened DeepPipeline
  import opened Rewraps
  import Runs
  import opened Rotate

  /** The randomness one path's rewrap draws. */
  datatype Draw = Draw(key: FreshKey, coins: Coins)

  /** What a rotation rewraps files with. */
  datatype Plan = Plan(retired: Credentials, opts: SealOptions, deep: bool, draws: string -> Draw)

  function Rewrapped(c: Suite, r: Plan, path: string, content: Bytes): Written {
    var d := r.draws(path);
    if r.deep then DeepRewrap(c, content, None, r.retired, r.opts, d.key, d.coins)
    else FastRewrap(c, content, None, r.retired, r.opts, d.coins)
  }

  /** Attempting and rewrapping sealed files. */
  function Rotating(c: Suite, r: Plan): Rotation {
    Rotation(
      content => OpenFile(c, content, None, r.retired).err,
      (path, content) =>
        var w := Rewrapped(c, r, path, content);
        if w.err.Some? then Err(w.err.value) else Ok(w.bytes))
  }

  /** The key and nonce the new header of a file is made for: fresh ones, or those it had. */
  function MadeFor(c: Suite, r: Plan, path: string, content: Bytes): (Bytes, Bytes)
    requires Unlock(c, content, r.retired).Ok?
  {
    var u := Unlock(c, content, r.retired).value.0;
    if r.deep then (r.draws(path).key.key, r.draws(path).key.nonce) else (u.key, u.nonce)
  }

  /** A file reported as rotated, fast or deep, opened under the retired identity, and opens to the
      same plaintext under every recipient of the rotation; for anyone else it does not open. */
  lemma {:induction false} RotatedOpens(c: Suite, r: Plan, path: string, before: Option<Bytes>, after: Option<Bytes>, row: Row, other: Credentials)
    requires RowRight(Rotating(c, r), path, before, after, row) && row.status == Rotated
    requires Unlock(c, before.value, r.retired).Ok? ==>
               var (key, nonce) := MadeFor(c, r, path, before.value);
               CanEncapsulate(c, key, nonce, r.opts, r.draws(path).coins) ==>
                 Unambiguous(c, FreshSlots(c, key, nonce, r.opts, r.draws(path).coins), nonce, key, other)
    ensures Unlock(c, before.value, r.retired).Ok? && after.Some?
    ensures OpenFile(c, before.value, None, r.retired).err.None?
    ensures Named(c, r.opts, other) ==> OpenFile(c, after.value, None, other) == OpenFile(c, before.value, None, r.retired)
    ensures var (key, nonce) := MadeFor(c, r, path, before.value);
            && CanEncapsulate(c, key, nonce, r.opts, r.draws(path).coins)
            && (!Owns(c, FreshSlots(c, key, nonce, r.opts, r.draws(path).coins), nonce, other) ==>
                  OpenFile(c, after.value, None, other).plain == [] && OpenFile(c, after.value, None, other).err.Some?)
  {
    hide Unlock, FreshSlots, CanEncapsulate, Unambiguous, Owns, Validate, Lawful;
    var file, d := before.value, r.draws(path);
    assert Unlock(c, file, r.retired).Ok?;
    var (key, nonce) := MadeFor(c, r, path, file);
    assert Validate(r.opts).None? && CanEncapsulate(c, key, nonce, r.opts, d.coins);
    UnlockedSizes(c, file, r.retired);
    if r.deep {
      Runs.DeepRewrapCommutes(c, file, r.retired, r.opts, d.key, d.coins, other);
    } else {
      FastRewrapCommutes(c, file, None, r.retired, r.opts, d.coins, other);
    }
    if Named(c, r.opts, other) {
      FreshOwners(c, key, nonce, r.opts, d.coins, other);
    }
  }
}
