/** Bytes, errors and the few sequence facts every other module uses. */
module Prelude {

  type Byte = x: int | 0 <= x < 256
  type Bytes = seq<Byte>

  datatype Option<+T> = None | Some(value: T)

  datatype Result<+T, +E> = Ok(value: T) | Err(error: E)

  /** Every error the sealed-file engine reports. */
  datatype Error =
    | NotSindook
    | NeedIdentity
    | NeedPassphrase
    | WrongKey
    | HeaderTampered
    | PayloadCorrupted
    | NoSlotRequested
    | TooManySlots
    | TooManyPassphrases
    | MalformedRecipient
    | ArgonOutOfRange
    | UnknownMode
    | EncapsulationFailed
    | DropWithoutKeep
    | NoSuchSlot
    | NoPassphraseSlot
    | UnmatchedIdentity
    | UnmatchedPassphrase
    | NoSlotLeft
    | SourceError
    | UnexpectedEof      // io.ErrUnexpectedEOF, from a source that was itself cut off
    | SinkError
    | Sentinel

  function Min(a: int, b: int): int { if a < b then a else b }

  lemma Assoc<T>(a: seq<T>, b: seq<T>, x: seq<T>)
    ensures a + b + x == a + (b + x)
  {
  }


  /** What is left to do, summed over threads. */
  function Total<T>(work: T -> nat, ts: seq<T>): nat {
    if ts == [] then 0 else work(ts[0]) + Total(work, ts[1..])
  }

  lemma {:induction false} TotalUpdate<T>(work: T -> nat, ts: seq<T>, i: nat, t: T)
    requires i < |ts|
    ensures Total(work, ts[i := t]) == Total(work, ts) - work(ts[i]) + work(t)
  {
    if i == 0 {
      assert ts[i := t][1..] == ts[1..];
    } else {
      assert ts[i := t][1..] == ts[1..][i - 1 := t];
      TotalUpdate(work, ts[1..], i - 1, t);
    }
  }

  /** The concatenation of a list of pieces. */
  function Flatten(parts: seq<Bytes>): Bytes {
    if parts == [] then [] else parts[0] + Flatten(parts[1..])
  }

  lemma {:induction false} FlattenAppend(a: seq<Bytes>, b: seq<Bytes>)
    ensures Flatten(a + b) == Flatten(a) + Flatten(b)
  {
    if a == [] {
      assert a + b == b;
    } else {
      assert (a + b)[1..] == a[1..] + b;
      FlattenAppend(a[1..], b);
    }
  }

  lemma FlattenSnoc(a: seq<Bytes>, x: Bytes)
    ensures Flatten(a + [x]) == Flatten(a) + x
  {
    FlattenAppend(a, [x]);
    assert Flatten([x]) == x + Flatten([]);
  }

  /** `width` bytes of n, most significant first; higher digits are dropped. */
  function BigEndian(n: nat, width: nat): (b: Bytes)
    ensures |b| == width
  {
    if width == 0 then [] else BigEndian(n / 256, width - 1) + [n % 256]
  }

  function FromBigEndian(b: Bytes): nat {
    if b == [] then 0 else FromBigEndian(b[..|b| - 1]) * 256 + b[|b| - 1]
  }

  function Pow256(width: nat): nat {
    if width == 0 then 1 else 256 * Pow256(width - 1)
  }

  lemma {:induction false} BigEndianInverse(n: nat, width: nat)
    requires n < Pow256(width)
    ensures FromBigEndian(BigEndian(n, width)) == n
  {
    if width != 0 {
      BigEndianInverse(n / 256, width - 1);
      var b := BigEndian(n, width);
      assert b[..width - 1] == BigEndian(n / 256, width - 1);
    }
  }

  lemma {:induction false} PowPositive(width: nat)
    ensures Pow256(width) > 0
  {
    if width > 0 {
      PowPositive(width - 1);
    }
  }

  lemma DivideTwice(n: nat, p: nat)
    requires p > 0
    ensures 256 * p > 0 && n / 256 / p == n / (256 * p)
  {
    var q, r := n / (256 * p), n % (256 * p);
    assert n == 256 * (p * q) + r && 0 <= r < 256 * p;
    assert n / 256 == p * q + r / 256 && 0 <= r / 256 < p;
    QuotientIs(n / 256, p, q, r / 256);
  }

  lemma QuotientIs(n: int, p: int, q: int, r: int)
    requires p > 0 && n == p * q + r && 0 <= r < p
    ensures n / p == q
  {
    var d := n / p;
    AtLeastOnce(p, q - d);
    AtLeastOnce(p, d - q);
  }

  lemma AtLeastOnce(p: int, k: int)
    requires p > 0
    ensures k > 0 ==> p * k >= p
  {
  }

  /** Byte j of a number is the one with j more significant bytes before it. */
  lemma {:induction false} BigEndianDigit(n: nat, width: nat, j: nat)
    requires j < width
    ensures Pow256(width - 1 - j) > 0 && BigEndian(n, width)[j] == n / Pow256(width - 1 - j) % 256
  {
    PowPositive(width - 1 - j);
    if j < width - 1 {
      BigEndianDigit(n / 256, width - 1, j);
      PowPositive(width - 2 - j);
      DivideTwice(n, Pow256(width - 2 - j));
    }
  }

  lemma {:induction false} FromBigEndianInverse(b: Bytes)
    ensures FromBigEndian(b) < Pow256(|b|)
    ensures BigEndian(FromBigEndian(b), |b|) == b
  {
    if b != [] {
      var front := b[..|b| - 1];
      FromBigEndianInverse(front);
      var n := FromBigEndian(b);
      assert n / 256 == FromBigEndian(front) && n % 256 == b[|b| - 1];
      assert b == front + [b[|b| - 1]];
    }
  }
}
