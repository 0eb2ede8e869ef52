/** A suite in which nothing can be forged from a given honest payload: the hypothesis of the
    authenticated-prefix theorem can be met. */
module HonestSuite {
  import opened Prelude
  import opened Crypto
  import opened Payload
  import opened PayloadTheorems

  function PlainUnder(plan: seq<Chunk>, n: Bytes): (q: Option<Bytes>)
    ensures q.Some? ==> Chunk(n, q.value) in plan
  {
    if plan == [] then None
    else if plan[0].nonce == n then Some(plan[0].plain)
    else PlainUnder(plan[1..], n)
  }

  lemma {:induction false} PlainUnderIs(plan: seq<Chunk>, k: nat)
    requires AllDistinct(Nonces(plan)) && k < |plan|
    ensures PlainUnder(plan, plan[k].nonce) == Some(plan[k].plain)
  {
    if k > 0 {
      var rest := plan[1..];
      assert Nonces(plan)[0] != Nonces(plan)[k];
      forall i, j | 0 <= i < j < |rest|
        ensures Nonces(rest)[i] != Nonces(rest)[j]
      {
        assert Nonces(plan)[i + 1] != Nonces(plan)[j + 1];
      }
      PlainUnderIs(rest, k - 1);
    }
  }

  function Mark(): (m: Bytes)
    ensures |m| == TAG && m[TAG - 1] == 255
  {
    seq(TAG, _ => 255)
  }

  predicate Marked(x: Bytes) {
    |x| >= TAG && x[|x| - TAG..] == Mark()
  }

  function HonestSeal(plan: seq<Chunk>, n: Bytes, q: Bytes): Bytes {
    if PlainUnder(plan, n) == Some(q) then Zeros(|q| + TAG) else q + Mark()
  }

  function HonestOpen(plan: seq<Chunk>, n: Bytes, x: Bytes): Option<Bytes> {
    var honest := PlainUnder(plan, n);
    if honest.Some? && x == Zeros(|honest.value| + TAG) then honest
    else if Marked(x) && honest != Some(x[..|x| - TAG]) then Some(x[..|x| - TAG])
    else None
  }

  /** Seals the chunks of the plan to zeroes and everything else to itself and a mark. */
  function OnlyHonest(plan: seq<Chunk>): Primitives {
    ToyWith((k, n, q, a) => HonestSeal(plan, n, q), (k, n, x, a) => HonestOpen(plan, n, x))
  }

  lemma OnlyHonestIsLawful(plan: seq<Chunk>)
    ensures Lawful(OnlyHonest(plan))
  {
    hide HonestSeal, HonestOpen;
    var c := OnlyHonest(plan);
    forall n: Bytes, q: Bytes
      ensures |HonestSeal(plan, n, q)| == |q| + TAG && HonestOpen(plan, n, HonestSeal(plan, n, q)) == Some(q)
    {
      HonestOpens(plan, n, q);
    }
    forall n: Bytes, x: Bytes | HonestOpen(plan, n, x).Some?
      ensures x == HonestSeal(plan, n, HonestOpen(plan, n, x).value)
    {
      HonestOpened(plan, n, x);
    }
  }

  lemma HonestOpens(plan: seq<Chunk>, n: Bytes, q: Bytes)
    ensures |HonestSeal(plan, n, q)| == |q| + TAG && HonestOpen(plan, n, HonestSeal(plan, n, q)) == Some(q)
  {
    hide PlainUnder;
    if PlainUnder(plan, n) != Some(q) {
      var x := q + Mark();
      assert x[|x| - TAG..] == Mark() && x[..|x| - TAG] == q;
      assert x[|x| - 1] == 255;
    }
  }

  lemma HonestOpened(plan: seq<Chunk>, n: Bytes, x: Bytes)
    requires HonestOpen(plan, n, x).Some?
    ensures x == HonestSeal(plan, n, HonestOpen(plan, n, x).value)
  {
    hide PlainUnder;
    if Marked(x) {
      assert x == x[..|x| - TAG] + x[|x| - TAG..];
    }
  }

  lemma {:induction false} HonestZeroes(c: Suite, key: Bytes, plan: seq<Chunk>, part: seq<Chunk>)
    requires c == OnlyHonest(plan) && forall x :: x in part ==> PlainUnder(plan, x.nonce) == Some(x.plain)
    ensures forall b :: b in SealAll(c, key, part) ==> b == 0
  {
    hide PlainUnder, Lawful;
    if part != [] {
      HonestZeroes(c, key, plan, part[1..]);
      assert part[0] in part;
      assert SealChunk(c, key, part[0]) == Zeros(|part[0].plain| + TAG);
    }
  }

  /** The hypothesis of `AuthenticatedPrefix` can be met, by every honest payload: there is a lawful
      suite in which nothing else opens, and the payload itself does. */
  lemma NothingForged(key: Bytes, p: Bytes) returns (c: Suite)
    requires ChunkCount(|p|) <= COUNTERS
    ensures NoForgery(c, key, Plan(0, p, None), Sealed(c, key, p))
    ensures OpenAll(c, key, Sealed(c, key, p), None) == Opened(p, None)
  {
    hide Nonce, Plan, SealAll, PlainUnder, Lawful;
    var plan := Plan(0, p, None);
    OnlyHonestIsLawful(plan);
    c := OnlyHonest(plan);
    NonceDiscipline(p);
    forall x | x in plan
      ensures PlainUnder(plan, x.nonce) == Some(x.plain)
    {
      var k :| 0 <= k < |plan| && plan[k] == x;
      PlainUnderIs(plan, k);
    }
    HonestZeroes(c, key, plan, plan);
    var s := Sealed(c, key, p);
    forall lo, hi, i: nat, last | 0 <= lo <= hi <= |s| && Open(c, key, Nonce(i, last), s[lo..hi], []).Some?
      ensures Chunk(Nonce(i, last), Open(c, key, Nonce(i, last), s[lo..hi], []).value) in plan
    {
      ZeroesUnmarked(s, lo, hi);
    }
    SealedOpens(c, key, 0, p);
  }

  lemma ZeroesUnmarked(s: Bytes, lo: nat, hi: nat)
    requires lo <= hi <= |s| && forall b :: b in s ==> b == 0
    ensures !Marked(s[lo..hi])
  {
    var x := s[lo..hi];
    if |x| >= TAG {
      assert x[|x| - TAG..][0] == s[hi - TAG] && s[hi - TAG] in s;
    }
  }
}
