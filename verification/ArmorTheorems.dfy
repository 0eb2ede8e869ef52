/** Armor round trip, the shape of armored text, and truncation. */
module ArmorTheorems {
  import opened Prelude
  import opened Base64
  import opened Armor

  // ----- lines

  predicate NoBreaks(t: Text) {
    forall k :: 0 <= k < |t| ==> t[k] != NEWLINE && t[k] != RETURN
  }

  lemma MarkersHaveNoBreaks()
    ensures NoBreaks(BEGIN) && NoBreaks(END)
    ensures |BEGIN| == 38 && |END| == 36 && BEGIN[0] == END[0] == 45 && BEGIN[5] != END[5]
  {
  }

  lemma {:induction false} LineLenOf(l: Text, rest: Text)
    requires NoBreaks(l)
    ensures LineLen(l + [NEWLINE] + rest) == |l| + 1
    ensures LineLen(l) == |l|
  {
    if l == [] {
    } else {
      assert (l + [NEWLINE] + rest)[1..] == l[1..] + [NEWLINE] + rest;
      LineLenOf(l[1..], rest);
    }
  }

  lemma TrimEndOf(l: Text)
    requires NoBreaks(l)
    ensures TrimEnd(l) == l && TrimEnd(l + [NEWLINE]) == l
  {
    assert (l + [NEWLINE])[..|l|] == l;
  }

  /** Reading a text whose first line is l. */
  lemma {:induction false} ReadLineStep(l: Text, rest: Text, ending: Option<Error>, st: State)
    requires NoBreaks(l) && |l| < MAX_LINE
    ensures ReadFrom(l + [NEWLINE] + rest, ending, st)
         == var f := Fill(l, st);
            if f.Bad? then Read([], f.error)
            else Read(f.bytes + ReadFrom(rest, ending, f.state).bytes, ReadFrom(rest, ending, f.state).error)
  {
    hide Fill;
    var s := l + [NEWLINE] + rest;
    LineLenOf(l, rest);
    TrimEndOf(l);
    assert s[..|l| + 1] == l + [NEWLINE] && s[|l| + 1..] == rest && s[|l|] == NEWLINE;
  }

  // ----- the shape of armored text

  /** The body cut into the lines of 48 bytes each and what is left. */
  function Lines(b: Bytes): seq<Text>
    decreases |b|
  {
    if b == [] then [] else if |b| <= 48 then [Encode(b)] else [Encode(b[..48])] + Lines(b[48..])
  }

  function Join(lines: seq<Text>): Text {
    if lines == [] then [] else lines[0] + [NEWLINE] + Join(lines[1..])
  }

  lemma JoinOne(l: Text)
    ensures Join([l]) == l + [NEWLINE]
  {
    var none: seq<Text> := [l][1..];
    assert none == [];
  }

  lemma {:induction false} BodyIsLines(b: Bytes)
    ensures Wrapped(Encode(b)) + LastBreak(Encode(b)) == Join(Lines(b))
    decreases |b|
  {
    hide Encode, Wrapped, LastBreak;
    if b == [] {
      NoLine();
    } else if |b| <= 48 {
      EncodedSize(b);
      ShortLine(Encode(b));
      JoinOne(Encode(b));
    } else {
      var head, rest := b[..48], b[48..];
      assert b == head + rest;
      EncodeAppend(head, rest);
      EncodedSize(head);
      BodyIsLines(rest);
      FullLine(Encode(head), Encode(rest));
      assert Lines(b)[1..] == Lines(rest);
    }
  }

  lemma EncodedSize(b: Bytes)
    requires 0 < |b| <= 48
    ensures 0 < |Encode(b)| <= COLS && |Encode(b)| % 4 == 0 && (|b| == 48 ==> |Encode(b)| == COLS)
  {
    hide Encode;
    EncodedSymbols(b);
  }

  lemma NoLine()
    ensures Encode([]) == [] && Wrapped([]) + LastBreak([]) == []
  {
  }

  lemma ShortLine(l: Text)
    requires 0 < |l| <= COLS
    ensures Wrapped(l) + LastBreak(l) == l + [NEWLINE]
  {
    hide Wrapped, LastBreak;
    if |l| == COLS {
      NoLine();
      FullLine(l, []);
      assert l + [] == l;
    } else {
      PartLine(l);
    }
  }

  lemma PartLine(l: Text)
    requires 0 < |l| < COLS
    ensures Wrapped(l) == l && LastBreak(l) == [NEWLINE]
  {
  }

  lemma FullLine(l: Text, rest: Text)
    requires |l| == COLS
    ensures Wrapped(l + rest) == l + [NEWLINE] + Wrapped(rest) && LastBreak(l + rest) == LastBreak(rest)
  {
    hide LastBreak;
    assert (l + rest)[..COLS] == l && (l + rest)[COLS..] == rest;
    SameBreak(l, rest);
  }

  lemma SameBreak(l: Text, rest: Text)
    requires |l| == COLS
    ensures LastBreak(l + rest) == LastBreak(rest)
  {
  }

  /** Body lines are whole base64 groups, at most 64 columns, all but the last exactly 64; joined
      without their line feeds they are the encoding of the input. */
  lemma {:induction false} LineShape(b: Bytes)
    ensures var lines := Lines(b);
            && (forall k :: 0 <= k < |lines| ==> 0 < |lines[k]| <= COLS && |lines[k]| % 4 == 0)
            && (forall k :: 0 <= k < |lines| - 1 ==> |lines[k]| == COLS)
            && Flatten(lines) == Encode(b)
    decreases |b|
  {
    hide Encode;
    if b == [] {
      NoLine();
    } else if |b| <= 48 {
      EncodedSize(b);
      FlattenSnoc([], Encode(b));
      assert [] + [Encode(b)] == [Encode(b)];
    } else {
      assert b == b[..48] + b[48..];
      EncodeAppend(b[..48], b[48..]);
      EncodedSize(b[..48]);
      LineShape(b[48..]);
      var lines, rest := Lines(b), Lines(b[48..]);
      assert lines == [Encode(b[..48])] + rest && lines[1..] == rest;
    }
  }

  // ----- the round trip

  lemma {:induction false} EncodedLine(x: Bytes)
    requires 0 < |x| <= 48
    ensures var l := Encode(x);
            && NoBreaks(l) && 0 < |l| <= COLS && l[0] != 45
            && Fill(l, State(true, false, false)) == Good(State(true, false, |x| % 3 != 0), x)
  {
    hide Encode, Decode, Symbol, TrimSpace;
    EncodedSymbols(x);
    DecodeEncoded(x);
    MarkersHaveNoBreaks();
    var l := Encode(x);
    assert forall k :: 0 <= k < |l| ==> l[k] in l;
    assert IsEncoded(l[0]);
  }

  /** The end line, with its line feed or without, ends the text cleanly. */
  lemma {:induction false} EndStep(tail: Text, saw: bool)
    requires tail == END || tail == END + [NEWLINE]
    ensures ReadFrom(tail, None, State(true, false, saw)) == Read([], CleanEof)
  {
    hide TrimSpace, Decode, TrimEnd, LineLen;
    MarkersHaveNoBreaks();
    LineLenOf(END, []);
    TrimEndOf(END);
    assert END + [NEWLINE] + [] == END + [NEWLINE];
    assert tail[..|tail|] == tail && tail[LineLen(tail)..] == [];
    assert LineLen([]) == 0;
    var st := State(true, true, saw);
    assert ReadFrom([], None, st) == Read([], CleanEof);
    assert FirstLine(tail, None) == Line.Line(END);
    assert Fill(END, State(true, false, saw)) == Good(st, []);
  }

  /** Reading body lines and then a tail that reads as r, wherever padding left the reader. */
  lemma {:induction false} ReadBodyThen(b: Bytes, tail: Text, r: Read)
    requires forall saw :: ReadFrom(tail, None, State(true, false, saw)) == r
    ensures ReadFrom(Join(Lines(b)) + tail, None, State(true, false, false)) == Read(b + r.bytes, r.error)
    decreases |b|
  {
    hide Encode, ReadFrom, Fill, END;
    if b == [] {
      assert Join(Lines(b)) + tail == tail;
      assert [] + r.bytes == r.bytes;
    } else if |b| <= 48 {
      EncodedLine(b);
      JoinOne(Encode(b));
      assert Join(Lines(b)) + tail == Encode(b) + [NEWLINE] + tail;
      ReadLineStep(Encode(b), tail, None, State(true, false, false));
    } else {
      var l, rest := Encode(b[..48]), Join(Lines(b[48..]));
      EncodedLine(b[..48]);
      assert Lines(b)[1..] == Lines(b[48..]);
      Assoc(l + [NEWLINE], rest, tail);
      ReadLineStep(l, rest + tail, None, State(true, false, false));
      ReadBodyThen(b[48..], tail, r);
      Assoc(b[..48], b[48..], r.bytes);
      assert b == b[..48] + b[48..];
    }
  }

  lemma {:induction false} ReadBody(b: Bytes, tail: Text)
    requires tail == END || tail == END + [NEWLINE]
    ensures ReadFrom(Join(Lines(b)) + tail, None, State(true, false, false)) == Read(b, CleanEof)
  {
    hide ReadFrom, END, Join, Lines;
    forall saw
      ensures ReadFrom(tail, None, State(true, false, saw)) == Read([], CleanEof)
    {
      EndStep(tail, saw);
    }
    ReadBodyThen(b, tail, Read([], CleanEof));
    assert b + [] == b;
  }

  /** The armored form as its lines, up to the final line feed. */
  function Framed(b: Bytes, tail: Text): Text {
    BEGIN + [NEWLINE] + (Join(Lines(b)) + tail)
  }

  lemma ArmoredIs(b: Bytes)
    ensures Armored(b) == Framed(b, END + [NEWLINE])
    ensures Armored(b)[..|Armored(b)| - 1] == Framed(b, END)
  {
    hide Encode, Wrapped, LastBreak, Join, Lines;
    BodyIsLines(b);
    var body := Join(Lines(b));
    assert Armored(b) == BEGIN + [NEWLINE] + body + END + [NEWLINE];
    assert Framed(b, END + [NEWLINE]) == BEGIN + [NEWLINE] + body + END + [NEWLINE];
  }

  lemma {:induction false} BeginStep(rest: Text)
    ensures ReadFrom(BEGIN + [NEWLINE] + rest, None, INITIAL) == ReadFrom(rest, None, State(true, false, false))
  {
    hide TrimEnd, Decode;
    MarkersHaveNoBreaks();
    var r := ReadFrom(rest, None, State(true, false, false));
    assert TrimSpace(BEGIN) == BEGIN;
    ReadLineStep(BEGIN, rest, None, INITIAL);
    assert [] + r.bytes == r.bytes;
  }

  /** Reading back armored text gives the bytes and a clean end of file, whether or not the very
      last line feed has been lost. */
  lemma {:induction false} RoundTrip(b: Bytes)
    ensures ReadFrom(Armored(b), None, INITIAL) == Read(b, CleanEof)
    ensures ReadFrom(Armored(b)[..|Armored(b)| - 1], None, INITIAL) == Read(b, CleanEof)
  {
    hide Armored, ReadFrom, BEGIN, END, Join, Lines;
    ArmoredIs(b);
    BeginStep(Join(Lines(b)) + END);
    BeginStep(Join(Lines(b)) + (END + [NEWLINE]));
    ReadBody(b, END);
    ReadBody(b, END + [NEWLINE]);
  }

  // ----- truncation

  /** Some line of the text is the end line. */
  predicate HasEnd(s: Text)
    decreases |s|
  {
    s != [] && (TrimEnd(s[..LineLen(s)]) == END || HasEnd(s[LineLen(s)..]))
  }

  /** Without an end line there is no clean end of file. */
  lemma {:induction false} NoEndMalformed(s: Text, st: State)
    requires !st.done && !HasEnd(s)
    ensures ReadFrom(s, None, st).error == Malformed
    decreases |s|
  {
    hide Decode, TrimSpace, LineLen, TrimEnd, BEGIN, END;
    var n := LineLen(s);
    if FirstLine(s, None).Line? {
      var f := Fill(FirstLine(s, None).text, st);
      if f.Good? {
        NoEndMalformed(s[n..], f.state);
      }
    }
  }

  /** A text without line breaks has an end line only by being one. */
  lemma HasEndUnbroken(t: Text)
    requires NoBreaks(t)
    ensures HasEnd(t) <==> t == END
  {
    hide END, LineLen, TrimEnd;
    EndNotEmpty();
    LineLenOf(t, []);
    TrimEndOf(t);
    assert t[..|t|] == t && t[|t|..] == [];
    assert !HasEnd([]);
  }

  /** The lines of a text whose first line is l. */
  lemma HasEndCons(l: Text, after: Text)
    requires NoBreaks(l)
    ensures HasEnd(l + [NEWLINE] + after) <==> l == END || HasEnd(after)
  {
    hide END, LineLen, TrimEnd;
    var t := l + [NEWLINE] + after;
    LineLenOf(l, after);
    TrimEndOf(l);
    assert t[..|l| + 1] == l + [NEWLINE] && t[|l| + 1..] == after;
  }

  /** A text cut inside its first line l, or after it. */
  lemma {:induction false} CutLine(l: Text, rest: Text, t: Text)
    requires NoBreaks(l) && t <= l + [NEWLINE] + rest
    ensures |t| <= |l| ==> t == l[..|t|] && (HasEnd(t) <==> t == END)
    ensures |t| > |l| ==> t[|l| + 1..] <= rest && (HasEnd(t) <==> l == END || HasEnd(t[|l| + 1..]))
  {
    hide END, HasEnd;
    if |t| <= |l| {
      assert t == l[..|t|];
      HasEndUnbroken(t);
    } else {
      assert t == l + [NEWLINE] + t[|l| + 1..];
      HasEndCons(l, t[|l| + 1..]);
    }
  }

  lemma EndNotEmpty()
    ensures END != []
  {
  }

  lemma {:induction false} CutBody(b: Bytes, t: Text)
    requires t <= Join(Lines(b)) + (END + [NEWLINE]) && |t| < |Join(Lines(b))| + |END|
    ensures !HasEnd(t)
    decreases |b|
  {
    hide Encode, HasEnd;
    MarkersHaveNoBreaks();
    if b == [] {
      assert Join(Lines(b)) + (END + [NEWLINE]) == END + [NEWLINE] + [];
      CutLine(END, [], t);
    } else {
      var x := if |b| <= 48 then b else b[..48];
      var l, rest := Encode(x), Join(Lines(b[|x|..])) + (END + [NEWLINE]);
      EncodedLine(x);
      if |b| <= 48 {
        assert b[|x|..] == [];
        JoinOne(l);
      } else {
        assert Lines(b)[1..] == Lines(b[48..]);
      }
      assert Join(Lines(b)) == l + [NEWLINE] + Join(Lines(b[|x|..]));
      Assoc(l + [NEWLINE], Join(Lines(b[|x|..])), END + [NEWLINE]);
      CutLine(l, rest, t);
      if |t| > |l| {
        CutBody(b[|x|..], t[|l| + 1..]);
      }
    }
  }

  /** A prefix of armored text is read to a clean end of file exactly when it lacks at most the
      final line feed; every shorter one ends in the malformed-armor error. */
  lemma {:induction false} Truncation(b: Bytes, t: Text)
    requires t <= Armored(b)
    ensures |t| >= |Armored(b)| - 1 ==> ReadFrom(t, None, INITIAL) == Read(b, CleanEof)
    ensures |t| < |Armored(b)| - 1 ==> ReadFrom(t, None, INITIAL).error == Malformed
  {
    hide Encode, Armored, ReadFrom, HasEnd, Join, Lines, BEGIN, END, NoBreaks;
    RoundTrip(b);
    ArmoredIs(b);
    var full := Armored(b);
    if |t| >= |full| - 1 {
      assert t == full || t == full[..|full| - 1];
    } else {
      MarkersHaveNoBreaks();
      var rest := Join(Lines(b)) + (END + [NEWLINE]);
      CutLine(BEGIN, rest, t);
      if |t| > |BEGIN| {
        CutBody(b, t[|BEGIN| + 1..]);
      } else if |t| > 5 {
        assert t[5] == BEGIN[5];
      }
      NoEndMalformed(t, INITIAL);
    }
  }

  // ----- text around the armor, and bad lines

  /** Nothing but spaces, tabs and the like. */
  predicate Blank(l: Text) {
    forall k :: 0 <= k < |l| ==> l[k] == 32 || 9 <= l[k] <= 13
  }

  lemma {:induction false} BlankTrims(l: Text)
    ensures TrimSpace(l) == [] <==> Blank(l)
    decreases |l|
  {
    if l != [] {
      if IsSpace(l[0]) {
        BlankTrims(l[1..]);
        assert forall k :: 1 <= k < |l| ==> l[k] == l[1..][k - 1];
      } else if IsSpace(l[|l| - 1]) {
        BlankTrims(l[..|l| - 1]);
        assert l[..|l| - 1][0] == l[0];
      }
    }
  }

  /** After the end line a further line is passed over if blank and reported as trailing data if not;
      the bytes have been delivered either way. */
  lemma {:induction false} AfterEnd(b: Bytes, l: Text)
    requires NoBreaks(l) && |l| < MAX_LINE
    ensures ReadFrom(Armored(b) + (l + [NEWLINE]), None, INITIAL) == Read(b, if Blank(l) then CleanEof else Trailing)
  {
    hide Encode, Armored, ReadFrom, Join, Lines, BEGIN, END;
    var r := Read([], if Blank(l) then CleanEof else Trailing);
    var tail := END + [NEWLINE] + (l + [NEWLINE]);
    forall saw
      ensures ReadFrom(tail, None, State(true, false, saw)) == r
    {
      TrailingStep(l, saw);
    }
    ReadBodyThen(b, tail, r);
    BeginStep(Join(Lines(b)) + tail);
    ArmoredIs(b);
    assert Armored(b) + (l + [NEWLINE]) == BEGIN + [NEWLINE] + (Join(Lines(b)) + tail);
    assert b + [] == b;
  }

  lemma {:induction false} TrailingStep(l: Text, saw: bool)
    requires NoBreaks(l) && |l| < MAX_LINE
    ensures ReadFrom(END + [NEWLINE] + (l + [NEWLINE]), None, State(true, false, saw))
         == Read([], if Blank(l) then CleanEof else Trailing)
  {
    hide TrimSpace, Decode, TrimEnd, LineLen, ReadFrom;
    MarkersHaveNoBreaks();
    BlankTrims(l);
    var st := State(true, true, saw);
    ReadLineStep(END, l + [NEWLINE], None, State(true, false, saw));
    assert l + [NEWLINE] + [] == l + [NEWLINE];
    ReadLineStep(l, [], None, st);
    EmptyAfterEnd(st);
  }

  lemma EmptyAfterEnd(st: State)
    requires st.done
    ensures ReadFrom([], None, st) == Read([], CleanEof)
  {
  }

  /** Before the begin line a blank line is passed over, and any other refuses the text. */
  lemma {:induction false} BeforeBegin(b: Bytes, l: Text)
    requires NoBreaks(l) && |l| < MAX_LINE && TrimSpace(l) != BEGIN
    ensures ReadFrom(l + [NEWLINE] + Armored(b), None, INITIAL) == if Blank(l) then Read(b, CleanEof) else Read([], Malformed)
  {
    hide TrimSpace, Decode, Armored, ReadFrom, BEGIN, END;
    BlankTrims(l);
    RoundTrip(b);
    ReadLineStep(l, Armored(b), None, INITIAL);
    assert [] + b == b;
  }

  /** A body line is taken if it decodes and is whole groups of at most 76 columns, not empty, and no
      padded line came before it; any other refuses the text. */
  lemma {:induction false} BodyLine(l: Text, rest: Text, saw: bool)
    requires NoBreaks(l) && |l| < MAX_LINE && l != END
    ensures ReadFrom(l + [NEWLINE] + rest, None, State(true, false, saw))
         == if !saw && 0 < |l| <= 76 && |l| % 4 == 0 && Decode(l).Some?
            then
              var r := ReadFrom(rest, None, State(true, false, PAD in l));
              Read(Decode(l).value + r.bytes, r.error)
            else Read([], Malformed)
  {
    hide TrimSpace, Decode, ReadFrom, END, BEGIN;
    ReadLineStep(l, rest, None, State(true, false, saw));
  }

  // ----- sources that break off

  /** When the source breaks off the reader says so, except where it has refused the text before; it
      never ends cleanly, and delivers nothing it would not have delivered otherwise. */
  lemma {:induction false} BrokenSource(s: Text, e: Error, st: State)
    ensures var broken, whole := ReadFrom(s, Some(e), st), ReadFrom(s, None, st);
            && (broken.error == SourceBroke(e) || (broken == whole && whole.error != CleanEof))
            && broken.bytes <= whole.bytes
            && (s != [] && s[|s| - 1] == NEWLINE ==> broken.bytes == whole.bytes)
    decreases |s|
  {
    hide Fill, LineLen, TrimEnd;
    var n := LineLen(s);
    LineEnds(s);
    if FirstLine(s, Some(e)).Line? {
      var f := Fill(FirstLine(s, None).text, st);
      FillNeverClean(FirstLine(s, None).text, st);
      if f.Good? {
        BrokenSource(s[n..], e, f.state);
        if s[n..] == [] {
          NothingLeft(e, f.state);
        }
      }
    }
  }

  lemma {:induction false} LineEnds(s: Text)
    ensures s != [] && s[LineLen(s) - 1] != NEWLINE ==> LineLen(s) == |s|
  {
    if s != [] && s[0] != NEWLINE {
      LineEnds(s[1..]);
    }
  }

  lemma FillNeverClean(line: Text, st: State)
    ensures Fill(line, st).Bad? ==> Fill(line, st).error in {Malformed, Trailing}
  {
    hide TrimSpace, Decode;
  }

  lemma NothingLeft(e: Error, st: State)
    ensures ReadFrom([], Some(e), st) == Read([], SourceBroke(e)) && ReadFrom([], None, st).bytes == []
  {
    assert LineLen([]) == 0;
  }

  /** What a broken source gave of an unfinished line is not looked at. */
  lemma {:induction false} UnfinishedLine(l: Text, rest: Text, e: Error, st: State)
    requires NoBreaks(rest) && |rest| <= MAX_LINE && NoBreaks(l) && |l| < MAX_LINE
    ensures ReadFrom(rest, Some(e), st) == Read([], SourceBroke(e))
    ensures ReadFrom(l + [NEWLINE] + rest, Some(e), st) == ReadFrom(l + [NEWLINE], Some(e), st)
  {
    hide Fill, LineLen, TrimEnd, ReadFrom;
    Unfinished(rest, e, st);
    ReadLineStep(l, rest, Some(e), st);
    ReadLineStep(l, [], Some(e), st);
    assert l + [NEWLINE] + [] == l + [NEWLINE];
    var f := Fill(l, st);
    if f.Good? {
      Unfinished(rest, e, f.state);
      Unfinished([], e, f.state);
    }
  }

  lemma Unfinished(rest: Text, e: Error, st: State)
    requires NoBreaks(rest) && |rest| <= MAX_LINE
    ensures ReadFrom(rest, Some(e), st) == Read([], SourceBroke(e))
  {
    hide Fill, LineLen, TrimEnd;
    LineLenOf(rest, []);
  }

  // ----- carriage returns

  /** The lines of a text, each ended by a carriage return and a line feed. */
  function JoinCrLf(lines: seq<Text>): Text {
    if lines == [] then [] else lines[0] + [RETURN, NEWLINE] + JoinCrLf(lines[1..])
  }

  /** Lines that end with a carriage return and a line feed read like those that end with a line feed. */
  lemma {:induction false} CrLfReadsAlike(lines: seq<Text>, st: State)
    requires forall l :: l in lines ==> NoBreaks(l) && |l| + 1 < MAX_LINE
    ensures ReadFrom(JoinCrLf(lines), None, st) == ReadFrom(Join(lines), None, st)
  {
    hide Fill, ReadFrom, NoBreaks;
    if lines != [] {
      assert lines[0] in lines;
      ReadLineStep(lines[0], Join(lines[1..]), None, st);
      ReadCrLfStep(lines[0], JoinCrLf(lines[1..]), st);
      var f := Fill(lines[0], st);
      if f.Good? {
        CrLfReadsAlike(lines[1..], f.state);
      }
    }
  }

  lemma {:induction false} ReadCrLfStep(l: Text, rest: Text, st: State)
    requires NoBreaks(l) && |l| + 1 < MAX_LINE
    ensures ReadFrom(l + [RETURN, NEWLINE] + rest, None, st)
         == var f := Fill(l, st);
            if f.Bad? then Read([], f.error)
            else Read(f.bytes + ReadFrom(rest, None, f.state).bytes, ReadFrom(rest, None, f.state).error)
  {
    hide Fill, LineLen, TrimEnd;
    var s := l + [RETURN, NEWLINE] + rest;
    CrLfLen(l, rest);
    CrLfTrims(l);
    assert s[..|l| + 2] == l + [RETURN, NEWLINE] && s[|l| + 2..] == rest && s[|l| + 1] == NEWLINE;
  }

  lemma {:induction false} CrLfLen(l: Text, rest: Text)
    requires NoBreaks(l)
    ensures LineLen(l + [RETURN, NEWLINE] + rest) == |l| + 2
  {
    var s := l + [RETURN, NEWLINE] + rest;
    if l != [] {
      assert s[1..] == l[1..] + [RETURN, NEWLINE] + rest;
      CrLfLen(l[1..], rest);
    } else {
      assert s[1..][0] == NEWLINE;
    }
  }

  lemma CrLfTrims(l: Text)
    requires NoBreaks(l)
    ensures TrimEnd(l + [RETURN, NEWLINE]) == l
  {
    var t := l + [RETURN, NEWLINE];
    var u := l + [RETURN];
    assert t[..|l| + 1] == u && u[..|l|] == l;
    assert TrimEnd(l) == l && TrimEnd(u) == TrimEnd(l) && TrimEnd(t) == TrimEnd(u);
  }

  /** Armor whose line feeds have become pairs of carriage return and line feed reads back. */
  lemma {:induction false} CrLfRoundTrip(b: Bytes)
    ensures ReadFrom(JoinCrLf([BEGIN] + Lines(b) + [END]), None, INITIAL) == Read(b, CleanEof)
  {
    hide Encode, Armored, ReadFrom, Join, JoinCrLf, Lines, BEGIN, END;
    MarkersHaveNoBreaks();
    LinesUnbroken(b);
    CrLfReadsAlike([BEGIN] + Lines(b) + [END], INITIAL);
    RoundTrip(b);
    ArmoredIs(b);
    JoinAppend([BEGIN] + Lines(b), [END]);
    JoinAppend([BEGIN], Lines(b));
    JoinOne(BEGIN);
    JoinOne(END);
    Assoc(BEGIN + [NEWLINE], Join(Lines(b)), END + [NEWLINE]);
  }

  lemma {:induction false} LinesUnbroken(b: Bytes)
    ensures forall l :: l in Lines(b) ==> NoBreaks(l) && |l| <= COLS
    decreases |b|
  {
    hide Encode, NoBreaks;
    if b != [] {
      EncodedLine(if |b| <= 48 then b else b[..48]);
      if |b| > 48 {
        LinesUnbroken(b[48..]);
      }
    }
  }

  lemma {:induction false} JoinAppend(a: seq<Text>, b: seq<Text>)
    ensures Join(a + b) == Join(a) + Join(b)
  {
    if a == [] {
      assert a + b == b;
    } else {
      assert (a + b)[1..] == a[1..] + b;
      JoinAppend(a[1..], b);
    }
  }
}
