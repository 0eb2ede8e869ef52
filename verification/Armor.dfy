/** The armored form of a file and what reading text back as armor yields, independent of how the
    text was written or is read in pieces. */
module Armor {
  import opened Prelude
  import opened Base64

  // -----BEGIN SINDOOK ENCRYPTED FILE-----
  const BEGIN: Text := [
    45, 45, 45, 45, 45, 66, 69, 71, 73, 78, 32, 83, 73, 78, 68, 79, 79, 75, 32,
    69, 78, 67, 82, 89, 80, 84, 69, 68, 32, 70, 73, 76, 69, 45, 45, 45, 45, 45]

  // -----END SINDOOK ENCRYPTED FILE-----
  const END: Text := [
    45, 45, 45, 45, 45, 69, 78, 68, 32, 83, 73, 78, 68, 79, 79, 75, 32, 69, 78,
    67, 82, 89, 80, 84, 69, 68, 32, 70, 73, 76, 69, 45, 45, 45, 45, 45]

  const COLS := 64
  const MAX_LINE := 1024
  const MAX_BODY_LINE := 76

  // ----- writing

  /** A line feed after every full line of t. */
  function Wrapped(t: Text): Text {
    if |t| < COLS then t else t[..COLS] + [NEWLINE] + Wrapped(t[COLS..])
  }

  function LastBreak(t: Text): Text {
    if |t| % COLS != 0 then [NEWLINE] else []
  }

  /** The armored form of b. */
  function Armored(b: Bytes): Text {
    BEGIN + [NEWLINE] + (Wrapped(Encode(b)) + LastBreak(Encode(b))) + END + [NEWLINE]
  }

  // ----- reading

  /** Length of the first line of s with its terminator, or of s when it has none. */
  function LineLen(s: Text): (n: nat)
    ensures n <= |s| && (s != [] ==> n > 0)
  {
    if s == [] then 0 else if s[0] == NEWLINE then 1 else 1 + LineLen(s[1..])
  }

  /** `TrimRight(line, "\r\n")`. */
  function TrimEnd(line: Text): (r: Text)
    ensures r <= line
  {
    if line != [] && (line[|line| - 1] == NEWLINE || line[|line| - 1] == RETURN) then TrimEnd(line[..|line| - 1]) else line
  }

  predicate IsSpace(x: Byte) {
    9 <= x <= 13 || x == 32
  }

  /** `TrimSpace` for ASCII text. */
  function TrimSpace(line: Text): Text {
    if line == [] then []
    else if IsSpace(line[0]) then TrimSpace(line[1..])
    else if IsSpace(line[|line| - 1]) then TrimSpace(line[..|line| - 1])
    else line
  }

  datatype ReadError = CleanEof | Malformed | Trailing | SourceBroke(error: Error)

  datatype State = State(started: bool, done: bool, sawPadding: bool)

  /** What `fill` does with one line. */
  datatype Filled = Bad(error: ReadError) | Good(state: State, bytes: Bytes)

  function Fill(line: Text, st: State): Filled {
    if !st.started then
      if TrimSpace(line) == [] then Good(st, [])
      else if TrimSpace(line) == BEGIN then Good(st.(started := true), [])
      else Bad(Malformed)
    else if st.done then
      if TrimSpace(line) == [] then Good(st, []) else Bad(Trailing)
    else if line == END then Good(st.(done := true), [])
    else if st.sawPadding || line == [] || |line| > MAX_BODY_LINE || |line| % 4 != 0 then Bad(Malformed)
    else match Decode(line)
      case None => Bad(Malformed)
      case Some(bytes) => Good(st.(sawPadding := PAD in line), bytes)
  }

  /** What `readLine` finds at the front of s: a line without its terminator, or why there is none. */
  datatype Line = NoLine(error: ReadError) | Line(text: Text)

  function FirstLine(s: Text, ending: Option<Error>): Line {
    var n := LineLen(s);
    var terminated := n > 0 && s[n - 1] == NEWLINE;
    if n > MAX_LINE then NoLine(Malformed)
    else if !terminated && ending.Some? then NoLine(SourceBroke(ending.value))
    else if n == 0 then NoLine(CleanEof)
    else Line(TrimEnd(s[..n]))
  }

  /** Everything the reader delivers from text s, and the error it ends with. */
  datatype Read = Read(bytes: Bytes, error: ReadError)

  function ReadFrom(s: Text, ending: Option<Error>, st: State): Read
    decreases |s|
  {
    match FirstLine(s, ending)
    case NoLine(e) => Read([], if e == CleanEof && !st.done then Malformed else e)
    case Line(line) =>
      var f := Fill(line, st);
      if f.Bad? then Read([], f.error)
      else
        var r := ReadFrom(s[LineLen(s)..], ending, f.state);
        Read(f.bytes + r.bytes, r.error)
  }

  const INITIAL := State(false, false, false)
}
