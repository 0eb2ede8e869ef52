/** The names of contacts and groups, as `normalizeContactName` brings them to one portable form. */
module Naming {
  import opened Prelude

  datatype NameError = BadLength | BadCharacter | NotPortable

  /** `unicode.IsSpace`. */
  predicate IsSpace(c: char) {
    || c in "\t\n\U{0B}\U{0C}\r \U{85}\U{A0}\U{1680}\U{2028}\U{2029}\U{202F}\U{205F}\U{3000}"
    || '\U{2000}' <= c <= '\U{200A}'
  }

  function Utf8Length(c: char): nat {
    if c < '\U{80}' then 1 else if c < '\U{800}' then 2 else if c < '\U{10000}' then 3 else 4
  }

  function ByteLength(s: string): (n: nat)
    ensures n >= |s|
    ensures (forall i :: 0 <= i < |s| ==> s[i] < '\U{80}') ==> n == |s|
  {
    if s == [] then 0 else Utf8Length(s[0]) + ByteLength(s[1..])
  }

  /** `unicode.ToLower`, exact where the result is ASCII: the Kelvin sign and the dotted capital I
      are the only other characters that become ASCII letters. */
  function LowerChar(c: char): char {
    if 'A' <= c <= 'Z' then c + ' '
    else if c == '\U{212A}' then 'k'
    else if c == '\U{130}' then 'i'
    else c
  }

  function Lower(s: string): (r: string)
    ensures |r| == |s|
  {
    seq(|s|, i requires 0 <= i < |s| => LowerChar(s[i]))
  }

  predicate LetterOrDigit(c: char) {
    'a' <= c <= 'z' || '0' <= c <= '9'
  }

  predicate Allowed(c: char, first: bool) {
    LetterOrDigit(c) || (!first && (c == '.' || c == '_' || c == '-'))
  }

  predicate Spelled(s: string) {
    forall i :: 0 <= i < |s| ==> Allowed(s[i], i == 0)
  }

  /** The part before the first dot. */
  function Base(s: string): string {
    if s == [] || s[0] == '.' then [] else [s[0]] + Base(s[1..])
  }

  /** A device name of Windows, for a name already in lower case. */
  predicate IsWindowsReserved(s: string) {
    var base := Base(s);
    || base in {"con", "prn", "aux", "nul"}
    || (|base| == 4 && base[..3] in {"com", "lpt"} && '1' <= base[3] <= '9')
  }

  /** At most one leading "@" is taken off. */
  function Normalize(raw: string): Result<string, NameError> {
    var name := if raw != [] && raw[0] == '@' then raw[1..] else raw;
    if name == [] || IsSpace(name[0]) || IsSpace(name[|name| - 1]) || ByteLength(name) > 64 then Err(BadLength)
    else
      var low := Lower(name);
      if !Spelled(low) then Err(BadCharacter)
      else if low[|low| - 1] == '.' || IsWindowsReserved(low) then Err(NotPortable)
      else Ok(low)
  }

  /** The names the configuration may hold. */
  predicate Portable(n: string) {
    && 1 <= |n| <= 64
    && Spelled(n)
    && n[|n| - 1] != '.' && !IsWindowsReserved(n)
  }

  lemma NormalizedIsPortable(raw: string)
    ensures Normalize(raw).Ok? ==> Portable(Normalize(raw).value)
  {
    hide IsWindowsReserved, ByteLength, Spelled, IsSpace, LowerChar;
  }

  /** An ASCII character that is not a space and has no lower case of its own. */
  predicate Plain(c: char) {
    c < '\U{80}' && !IsSpace(c) && LowerChar(c) == c
  }

  lemma AllowedIsPlain(c: char, first: bool)
    requires Allowed(c, first)
    ensures Plain(c) && (first ==> c != '@')
  {
  }

  /** The portable names are exactly the ones normalization leaves alone, "@" or not. */
  lemma PortableIsFixed(n: string)
    ensures Portable(n) <==> Normalize(n) == Ok(n)
    ensures Portable(n) ==> Normalize("@" + n) == Ok(n)
  {
    hide IsWindowsReserved, ByteLength, IsSpace, LowerChar, Lower, Allowed;
    NormalizedIsPortable(n);
    if Portable(n) {
      PlainThroughout(n);
      assert ("@" + n)[1..] == n;
      AllowedIsPlain(n[0], true);
    }
  }

  lemma PlainThroughout(n: string)
    requires Spelled(n)
    ensures forall i :: 0 <= i < |n| ==> Plain(n[i])
    ensures Lower(n) == n
  {
    hide IsSpace, LowerChar, Allowed;
    forall i | 0 <= i < |n|
      ensures Plain(n[i])
    {
      AllowedIsPlain(n[i], i == 0);
    }
  }

  /** The characters c spells in either case. */
  predicate SpellsChar(r: char, c: char) {
    r == c || ('a' <= c <= 'z' && r as int == c as int - 32)
  }

  /** A portable name may be given in any mix of cases, with "@" before it or without. */
  lemma CaseFolds(n: string, raw: string)
    requires Portable(n) && |raw| == |n| && forall i :: 0 <= i < |n| ==> SpellsChar(raw[i], n[i])
    ensures Normalize(raw) == Ok(n) && Normalize("@" + raw) == Ok(n)
  {
    hide IsWindowsReserved, ByteLength, IsSpace, LowerChar, Lower, Allowed, SpellsChar;
    FoldsThroughout(n, raw);
    assert ("@" + raw)[1..] == raw;
  }

  lemma FoldsThroughout(n: string, raw: string)
    requires Spelled(n) && |raw| == |n| && forall i :: 0 <= i < |n| ==> SpellsChar(raw[i], n[i])
    ensures forall i :: 0 <= i < |raw| ==> raw[i] < '\U{80}' && !IsSpace(raw[i])
    ensures raw != [] ==> raw[0] != '@'
    ensures Lower(raw) == n
  {
    hide IsSpace, LowerChar, Allowed, SpellsChar;
    forall i | 0 <= i < |raw|
      ensures raw[i] < '\U{80}' && !IsSpace(raw[i]) && LowerChar(raw[i]) == n[i]
      ensures i == 0 ==> raw[0] != '@'
    {
      FoldsChar(raw[i], n[i], i == 0);
    }
  }

  lemma FoldsChar(r: char, c: char, first: bool)
    requires Allowed(c, first) && SpellsChar(r, c)
    ensures r < '\U{80}' && !IsSpace(r) && LowerChar(r) == c && (first ==> r != '@')
  {
  }

  /** The Kelvin sign and the dotted capital I stand for k and i, and count for as many bytes as UTF-8
      needs for them. */
  lemma ForeignLetters(a: string, x: char, y: char, n: nat, b: string)
    requires Foreign(x, y, n) && (a == "" || a[0] != '@')
    requires (forall i :: 0 <= i < |a| ==> a[i] < '\U{80}') && forall i :: 0 <= i < |b| ==> b[i] < '\U{80}'
    ensures Normalize(a + [x] + b) == if |a| + n + |b| > 64 then Err(BadLength) else Normalize(a + [y] + b)
  {
    hide Normalize, IsSpace, ByteLength, LowerChar, Lower, Foreign;
    LettersAlike(x, y, n);
    Bytewise(a + [x], b);
    Bytewise(a, [x]);
    AsciiBytes(a);
    AsciiBytes(b);
    if |a| + n + |b| > 64 {
      TooLong(a + [x] + b);
    } else {
      Bytewise(a + [y], b);
      Bytewise(a, [y]);
      LowerMiddle(a, [x], [y], b);
      SameLower(a + [x] + b, a + [y] + b);
    }
  }

  /** x has the lower case y and takes n bytes. */
  predicate Foreign(x: char, y: char, n: nat) {
    (x == '\U{212A}' && y == 'k' && n == 3) || (x == '\U{130}' && y == 'i' && n == 2)
  }

  lemma AsciiBytes(s: string)
    requires forall i :: 0 <= i < |s| ==> s[i] < '\U{80}'
    ensures ByteLength(s) == |s|
  {
  }

  lemma LowerMiddle(a: string, x: string, y: string, b: string)
    requires Lower(x) == Lower(y)
    ensures Lower(a + x + b) == Lower(a + y + b)
  {
    hide Lower, LowerChar;
    LowerAppend(a + x, b);
    LowerAppend(a, x);
    LowerAppend(a + y, b);
    LowerAppend(a, y);
  }

  lemma LowerAppend(s: string, t: string)
    ensures Lower(s + t) == Lower(s) + Lower(t)
  {
    hide LowerChar;
  }

  lemma TooLong(n: string)
    requires n != "" && n[0] != '@' && ByteLength(n) > 64
    ensures Normalize(n) == Err(BadLength)
  {
    hide ByteLength, IsSpace;
  }

  lemma SameLower(m: string, n: string)
    requires m != "" && n != "" && m[0] != '@' && n[0] != '@' && Lower(m) == Lower(n)
    requires ByteLength(m) <= 64 && ByteLength(n) <= 64
    requires IsSpace(m[0]) == IsSpace(n[0]) && IsSpace(m[|m| - 1]) == IsSpace(n[|n| - 1])
    ensures Normalize(m) == Normalize(n)
  {
    hide ByteLength, IsSpace, Lower, Spelled, IsWindowsReserved;
  }

  lemma LettersAlike(x: char, y: char, n: nat)
    requires Foreign(x, y, n)
    ensures x != '@' && y != '@' && !IsSpace(x) && !IsSpace(y) && Lower([x]) == Lower([y])
    ensures ByteLength([x]) == n && ByteLength([y]) == 1
  {
    var none: string := [x][1..];
    assert none == "" && ByteLength(none) == 0;
  }

  lemma {:induction false} Bytewise(s: string, t: string)
    ensures ByteLength(s + t) == ByteLength(s) + ByteLength(t)
  {
    if s == [] {
      assert s + t == t;
    } else {
      assert (s + t)[1..] == s[1..] + t;
      Bytewise(s[1..], t);
    }
  }

  /** The four plain device names are refused with and without an extension. */
  lemma DeviceNames(s: string, rest: string)
    requires s in {"con", "prn", "aux", "nul"}
    ensures IsWindowsReserved(s) && IsWindowsReserved(s + "." + rest)
  {
    hide Base;
    BaseBeforeDot(s, "");
    BaseBeforeDot(s, "." + rest);
    assert s + "" == s && s + ("." + rest) == s + "." + rest;
  }

  /** The numbered ones are refused for the digits 1 to 9 and nothing else. */
  lemma PortNames(s: string, d: char, rest: string)
    requires s in {"com", "lpt"} && '0' <= d <= '9'
    ensures IsWindowsReserved(s + [d]) <==> d != '0'
    ensures IsWindowsReserved(s + [d] + "." + rest) <==> d != '0'
  {
    hide Base;
    var name := s + [d];
    BaseBeforeDot(name, "");
    BaseBeforeDot(name, "." + rest);
    assert name + "" == name && name + ("." + rest) == s + [d] + "." + rest;
    assert name[..3] == s && name[3] == d;
  }

  lemma OtherNames(s: string)
    requires '.' !in s && |s| > 4
    ensures !IsWindowsReserved(s)
  {
    BaseBeforeDot(s, "");
    assert s + "" == s;
  }

  lemma {:induction false} BaseBeforeDot(a: string, b: string)
    requires '.' !in a && (b == "" || b[0] == '.')
    ensures Base(a + b) == a
  {
    if a == [] {
      assert a + b == b;
    } else {
      assert (a + b)[1..] == a[1..] + b;
      BaseBeforeDot(a[1..], b);
    }
  }
}
