/** Standard base64, section 4 of RFC 4648, as Go's `base64.StdEncoding` writes and reads it:
    the decoder skips carriage returns and line feeds and does not insist that the unused bits
    of a padded group are zero. Text is held as ASCII codes. */
module Base64 {
  import opened Prelude

  type Text = Bytes

  const PAD: Byte := 61      // '='
  const NEWLINE: Byte := 10
  const RETURN: Byte := 13

  type Sextet = x: int | 0 <= x < 64

  /** A-Z, a-z, 0-9, '+' and '/'. */
  function Symbol(v: Sextet): (s: Byte)
    ensures InAlphabet(s)
  {
    if v < 26 then 65 + v
    else if v < 52 then 97 + (v - 26)
    else if v < 62 then 48 + (v - 52)
    else if v == 62 then 43
    else 47
  }

  predicate InAlphabet(s: Byte) {
    65 <= s <= 90 || 97 <= s <= 122 || 48 <= s <= 57 || s == 43 || s == 47
  }

  function Value(s: Byte): Sextet
    requires InAlphabet(s)
  {
    if 65 <= s <= 90 then s - 65
    else if 97 <= s <= 122 then s - 97 + 26
    else if 48 <= s <= 57 then s - 48 + 52
    else if s == 43 then 62
    else 63
  }

  lemma ValueOfSymbol(v: Sextet)
    ensures Value(Symbol(v)) == v
  {
  }

  function EncodeGroup(a: Byte, b: Byte, c: Byte): (t: Text)
    ensures |t| == 4 && forall x :: x in t ==> InAlphabet(x)
  {
    [Symbol(a / 4), Symbol(a % 4 * 16 + b / 16), Symbol(b % 16 * 4 + c / 64), Symbol(c % 64)]
  }

  function Encode(s: Bytes): Text {
    if |s| == 0 then []
    else if |s| == 1 then EncodeGroup(s[0], 0, 0)[..2] + [PAD, PAD]
    else if |s| == 2 then EncodeGroup(s[0], s[1], 0)[..3] + [PAD]
    else EncodeGroup(s[0], s[1], s[2]) + Encode(s[3..])
  }

  function DecodeGroup(t: Text): (r: Bytes)
    requires |t| == 4 && forall x :: x in t ==> InAlphabet(x)
    ensures |r| == 3
  {
    var w, x, y, z := Value(t[0]), Value(t[1]), Value(t[2]), Value(t[3]);
    [(w * 4 + x / 16) % 256, (x % 16 * 16 + y / 4) % 256, (y % 4 * 64 + z) % 256]
  }

  /** Decoding text that holds no line breaks. */
  function DecodeClean(t: Text): Option<Bytes> {
    if t == [] then Some([])
    else if |t| < 4 || !InAlphabet(t[0]) || !InAlphabet(t[1]) then None
    else if t[2] == PAD then
      if |t| == 4 && t[3] == PAD then Some(DecodeGroup([t[0], t[1], 65, 65])[..1]) else None
    else if !InAlphabet(t[2]) then None
    else if t[3] == PAD then
      if |t| == 4 then Some(DecodeGroup([t[0], t[1], t[2], 65])[..2]) else None
    else if !InAlphabet(t[3]) then None
    else match DecodeClean(t[4..])
      case None => None
      case Some(rest) => Some(DecodeGroup(t[..4]) + rest)
  }

  function DropBreaks(t: Text): Text {
    if t == [] then []
    else (if t[0] == NEWLINE || t[0] == RETURN then [] else [t[0]]) + DropBreaks(t[1..])
  }

  /** `DecodeString`. */
  function Decode(t: Text): Option<Bytes> {
    DecodeClean(DropBreaks(t))
  }

  /** Line breaks anywhere in a text make no difference to what it decodes to. */
  lemma BreaksIgnored(a: Text, x: Byte, b: Text)
    requires x == 10 || x == 13
    ensures Decode(a + [x] + b) == Decode(a + b)
  {
    DropAppend(a + [x], b);
    DropAppend(a, [x]);
    DropAppend(a, b);
    assert DropBreaks([x]) == [];
    assert DropBreaks(a) + [] == DropBreaks(a);
  }

  lemma {:induction false} DropAppend(a: Text, b: Text)
    ensures DropBreaks(a + b) == DropBreaks(a) + DropBreaks(b)
  {
    if a == [] {
      assert a + b == b;
    } else {
      assert (a + b)[1..] == a[1..] + b;
      DropAppend(a[1..], b);
    }
  }

  // ----- the round trip

  lemma {:induction false} GroupRoundTrip(a: Byte, b: Byte, c: Byte)
    ensures DecodeGroup(EncodeGroup(a, b, c)) == [a, b, c]
  {
    hide Symbol, Value, InAlphabet;
    GroupArithmetic(a, b, c);
    var w, x, y, z := a / 4, a % 4 * 16 + b / 16, b % 16 * 4 + c / 64, c % 64;
    ValueOfSymbol(w);
    ValueOfSymbol(x);
    ValueOfSymbol(y);
    ValueOfSymbol(z);
  }

  lemma GroupArithmetic(a: Byte, b: Byte, c: Byte)
    ensures var w, x, y, z := a / 4, a % 4 * 16 + b / 16, b % 16 * 4 + c / 64, c % 64;
            && w * 4 + x / 16 == a && x % 16 * 16 + y / 4 == b && y % 4 * 64 + z == c
  {
  }

  lemma {:induction false} DecodeCleanEncoded(s: Bytes)
    ensures DecodeClean(Encode(s)) == Some(s)
  {
    hide Symbol, Value, InAlphabet;
    if |s| == 1 {
      PaddedGroup(s[0], 0, 1);
      assert [s[0], 0][..1] == s;
    } else if |s| == 2 {
      PaddedGroup(s[0], s[1], 2);
      assert [s[0], s[1]][..2] == s;
    } else if |s| >= 3 {
      var g, t := EncodeGroup(s[0], s[1], s[2]), Encode(s);
      DecodeCleanEncoded(s[3..]);
      GroupRoundTrip(s[0], s[1], s[2]);
      PadOutside();
      assert t[..4] == g && t[4..] == Encode(s[3..]);
      assert t[0] in g && t[1] in g && t[2] in g && t[3] in g;
      assert [s[0], s[1], s[2]] + s[3..] == s;
    }
  }

  lemma PadOutside()
    ensures !InAlphabet(PAD) && !InAlphabet(NEWLINE) && !InAlphabet(RETURN) && InAlphabet(65)
  {
  }

  /** A group of one or two bytes, padded. */
  lemma PaddedGroup(a: Byte, b: Byte, n: nat)
    requires n == 2 || (n == 1 && b == 0)
    ensures DecodeClean(EncodeGroup(a, b, 0)[..n + 1] + (if n == 1 then [PAD, PAD] else [PAD])) == Some([a, b][..n])
  {
    hide Value;
    var g := EncodeGroup(a, b, 0);
    GroupRoundTrip(a, b, 0);
    assert g[3] == 65 && (b == 0 ==> g[2] == 65);
    assert g == [g[0], g[1], g[2], g[3]];
    assert g[0] in g && g[1] in g && g[2] in g;
    PadOutside();
    if n == 1 {
      var t := g[..2] + [PAD, PAD];
      assert t == [g[0], g[1], PAD, PAD];
      assert [a, b][..1] == DecodeGroup(g)[..1];
    } else {
      var t := g[..3] + [PAD];
      assert t == [g[0], g[1], g[2], PAD];
      assert [a, b][..2] == DecodeGroup(g)[..2];
    }
  }

  predicate IsEncoded(x: Byte) {
    InAlphabet(x) || x == PAD
  }

  lemma {:induction false} EncodedSymbols(s: Bytes)
    ensures forall x :: x in Encode(s) ==> IsEncoded(x)
    ensures PAD in Encode(s) <==> |s| % 3 != 0
    ensures |Encode(s)| == (|s| + 2) / 3 * 4
  {
    hide Symbol, InAlphabet;
    PadOutside();
    if |s| >= 3 {
      EncodedSymbols(s[3..]);
    }
  }

  lemma {:induction false} DropNothing(t: Text)
    requires forall x :: x in t ==> IsEncoded(x)
    ensures DropBreaks(t) == t
  {
    if t != [] {
      DropNothing(t[1..]);
      assert t[0] in t;
    }
  }

  /** Decoding what was encoded gives the bytes back. */
  lemma DecodeEncoded(s: Bytes)
    ensures Decode(Encode(s)) == Some(s)
  {
    hide Encode, DecodeClean;
    EncodedSymbols(s);
    DropNothing(Encode(s));
    DecodeCleanEncoded(s);
  }

  function Padding(t: Text): nat {
    if |t| < 2 || t[|t| - 1] != PAD then 0 else if t[|t| - 2] != PAD then 1 else 2
  }

  lemma PaddingOfTail(t: Text)
    requires |t| >= 8
    ensures Padding(t[4..]) == Padding(t)
  {
    assert t[4..][|t| - 5] == t[|t| - 1] && t[4..][|t| - 6] == t[|t| - 2];
  }

  /** Text is decoded only if, its line breaks aside, it is whole groups; they give three bytes each,
      less one for each padding character. */
  lemma {:induction false} DecodedLength(t: Text)
    requires DecodeClean(t).Some?
    ensures |t| % 4 == 0 && |DecodeClean(t).value| + Padding(t) == |t| / 4 * 3
  {
    hide DecodeGroup, InAlphabet;
    PadOutside();
    if |t| >= 4 && t[2] != PAD && t[3] != PAD {
      DecodedLength(t[4..]);
      if |t| >= 8 {
        PaddingOfTail(t);
      } else {
        assert |t| == 4;
      }
    }
  }

  /** It holds symbols only, padding being allowed in the last two places. */
  lemma {:induction false} DecodedSymbols(t: Text, k: nat)
    requires DecodeClean(t).Some? && k < |t|
    ensures InAlphabet(t[k]) || (t[k] == PAD && k >= |t| - 2)
  {
    hide DecodeGroup, InAlphabet;
    if k >= 4 {
      assert t[4..][k - 4] == t[k];
      DecodedSymbols(t[4..], k - 4);
    }
  }

  /** Encoding splits wherever whole groups end. */
  lemma {:induction false} EncodeAppend(a: Bytes, b: Bytes)
    requires |a| % 3 == 0
    ensures Encode(a + b) == Encode(a) + Encode(b)
    decreases |a|
  {
    hide Symbol, InAlphabet;
    if a == [] {
      assert a + b == b;
    } else {
      assert (a + b)[3..] == a[3..] + b;
      EncodeAppend(a[3..], b);
    }
  }
}
