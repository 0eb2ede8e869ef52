/** Lists of names: first occurrences, and sorting as `sort.Strings` orders them. */
module Lists {

  predicate NoDup<T(==)>(s: seq<T>) {
    forall i, j :: 0 <= i < j < |s| ==> s[i] != s[j]
  }

  /** What a loop with a `seen` map keeps of s: the first occurrence of everything, in order. */
  function Firsts<T(==,!new)>(s: seq<T>): (r: seq<T>)
    ensures NoDup(r)
    ensures forall x :: x in r <==> x in s
  {
    if s == [] then []
    else
      var front, last := s[..|s| - 1], s[|s| - 1];
      assert s == front + [last];
      if last in front then Firsts(front) else Firsts(front) + [last]
  }

  // ----- order

  /** Byte-wise order; on UTF-8 this is the order of code points. */
  predicate Less(a: string, b: string) {
    b != [] && (a == [] || a[0] < b[0] || (a[0] == b[0] && Less(a[1..], b[1..])))
  }

  /** a is before b when it is a proper prefix of b, or smaller where they first differ. */
  lemma {:induction false} LessIs(a: string, b: string)
    ensures Less(a, b) <==> exists k: nat :: k <= |a| && k < |b| && a[..k] == b[..k] && (k == |a| || a[k] < b[k])
  {
    if b != [] {
      if a == [] {
        assert a[..0] == b[..0];
      } else if a[0] == b[0] {
        LessIs(a[1..], b[1..]);
        if k: nat :| k <= |a[1..]| && k < |b[1..]| && a[1..][..k] == b[1..][..k] && (k == |a[1..]| || a[1..][k] < b[1..][k]) {
          assert a[..k + 1] == [a[0]] + a[1..][..k] && b[..k + 1] == [b[0]] + b[1..][..k];
        }
        if k: nat :| k <= |a| && k < |b| && a[..k] == b[..k] && (k == |a| || a[k] < b[k]) {
          assert k > 0;
          assert a[1..][..k - 1] == a[..k][1..] && b[1..][..k - 1] == b[..k][1..];
        }
      } else {
        assert a[..0] == b[..0];
        forall k: nat | 0 < k <= |a| && k < |b|
          ensures a[..k] != b[..k]
        {
          assert a[..k][0] == a[0] && b[..k][0] == b[0];
        }
      }
    }
  }

  lemma {:induction false} Irreflexive(a: string)
    ensures !Less(a, a)
  {
    if a != [] {
      Irreflexive(a[1..]);
    }
  }

  lemma {:induction false} Transitive(a: string, b: string, d: string)
    requires Less(a, b) && Less(b, d)
    ensures Less(a, d)
  {
    if a != [] && a[0] == b[0] == d[0] {
      Transitive(a[1..], b[1..], d[1..]);
    }
  }

  lemma {:induction false} Trichotomy(a: string, b: string)
    ensures a == b || Less(a, b) || Less(b, a)
  {
    if a != [] && b != [] && a[0] == b[0] {
      Trichotomy(a[1..], b[1..]);
      assert a == [a[0]] + a[1..] && b == [b[0]] + b[1..];
    }
  }

  predicate Increasing(s: seq<string>) {
    forall i, j :: 0 <= i < j < |s| ==> Less(s[i], s[j])
  }

  /** x put in its place, unless it is there already. */
  function Insert(s: seq<string>, x: string): (r: seq<string>)
    ensures forall y :: y in r <==> y in s || y == x
  {
    if s == [] then [x]
    else if s[0] == x then s
    else if Less(x, s[0]) then [x] + s
    else [s[0]] + Insert(s[1..], x)
  }

  /** A list without repetitions (the code sorts no other) in increasing order. */
  function Sort(s: seq<string>): (r: seq<string>)
    ensures forall y :: y in r <==> y in s
  {
    if s == [] then [] else Insert(Sort(s[1..]), s[0])
  }

  lemma {:induction false} InsertIncreasing(s: seq<string>, x: string)
    requires Increasing(s)
    ensures Increasing(Insert(s, x))
  {
    hide Less;
    if s != [] && s[0] != x {
      if Less(x, s[0]) {
        forall j | 0 <= j < |s|
          ensures Less(x, s[j])
        {
          if j > 0 {
            Transitive(x, s[0], s[j]);
          }
        }
      } else {
        Trichotomy(s[0], x);
        var rest := Insert(s[1..], x);
        InsertIncreasing(s[1..], x);
        forall j | 0 <= j < |rest|
          ensures Less(s[0], rest[j])
        {
          assert rest[j] in rest;
          if rest[j] != x {
            var k :| 0 <= k < |s[1..]| && s[1..][k] == rest[j];
            assert s[k + 1] == rest[j];
          }
        }
      }
    }
  }

  lemma {:induction false} SortIncreasing(s: seq<string>)
    ensures Increasing(Sort(s))
  {
    if s != [] {
      SortIncreasing(s[1..]);
      InsertIncreasing(Sort(s[1..]), s[0]);
    }
  }

  lemma IncreasingNoDup(s: seq<string>)
    requires Increasing(s)
    ensures NoDup(s)
  {
    forall i, j | 0 <= i < j < |s|
      ensures s[i] != s[j]
    {
      Irreflexive(s[i]);
    }
  }

  /** An increasing list is determined by its elements. */
  lemma {:induction false} IncreasingUnique(s: seq<string>, t: seq<string>)
    requires Increasing(s) && Increasing(t)
    requires forall x :: x in s <==> x in t
    ensures s == t
  {
    hide Less;
    if t != [] {
      assert t[0] in t;
    }
    if s != [] {
      assert s[0] in s;
      assert t[0] in s && s[0] in t;
      if s[0] != t[0] {
        // each head would be below the other
        Irreflexive(s[0]);
        Transitive(s[0], t[0], s[0]);
        assert false;
      }
      IncreasingNoDup(s);
      IncreasingNoDup(t);
      TailMembers(s, t);
      IncreasingUnique(s[1..], t[1..]);
      assert s == [s[0]] + s[1..] && t == [t[0]] + t[1..];
    }
  }

  lemma TailMembers(s: seq<string>, t: seq<string>)
    requires NoDup(s) && NoDup(t) && s != [] && t != [] && s[0] == t[0]
    requires forall x :: x in s <==> x in t
    ensures forall x :: x in s[1..] <==> x in t[1..]
  {
    forall x
      ensures x in s[1..] <==> x in t[1..]
    {
      InTail(s, x);
      InTail(t, x);
    }
  }

  lemma InTail(s: seq<string>, x: string)
    requires NoDup(s) && s != []
    ensures x in s[1..] <==> x in s && x != s[0]
  {
    assert s == [s[0]] + s[1..];
    if x in s[1..] {
      var k :| 0 <= k < |s[1..]| && s[1..][k] == x;
      assert s[k + 1] == x;
    }
  }
}
