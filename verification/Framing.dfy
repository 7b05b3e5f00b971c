/**
 Cutting the incoming byte stream into command lines. The BLE and the UART console run the same loop
 over a 1024-character buffer and differ only in what they do when a line outgrows it.
 */
module Framing {
  import opened Common

  const BUFFER_SIZE := 1024
  const MAX_LINE := BUFFER_SIZE - 1
  const QUEUE_DEPTH := 8

  // `feed_rx_bytes` drops an overlong line; `uart_command_task` processes its first 1023 characters.
  datatype Overlong = Drop | Process

  predicate EndsLine(c: char) {
    c == '\n' || c == '\r'
  }

  /* ---- Specification: segments between line ends ---- */

  // The text from the first brace on.
  function FromBrace(s: string): (r: string)
    ensures |r| <= |s|
    ensures r != [] ==> r[0] == '{'
  {
    if s == [] || s[0] == '{' then s else FromBrace(s[1..])
  }

  datatype Scan = Scan(lines: seq<string>, pending: string)

  // One segment: the lines an overflow forces out of it, and what the buffer then holds. The
  // character that overflows the buffer is lost, and the scan for a brace starts again after it.
  function Segment(s: string, overlong: Overlong): (r: Scan)
    ensures |r.pending| <= MAX_LINE
    decreases |s|
  {
    var t := FromBrace(s);
    if |t| <= MAX_LINE then Scan([], t)
    else
      var rest := Segment(t[BUFFER_SIZE..], overlong);
      Scan((if overlong.Process? then [t[..MAX_LINE]] else []) + rest.lines, rest.pending)
  }

  // The index of the first line end, or the length of the text.
  function LineLength(s: string): (n: nat)
    ensures n <= |s| && (n < |s| ==> EndsLine(s[n])) && forall i :: 0 <= i < n ==> !EndsLine(s[i])
  {
    if s == [] || EndsLine(s[0]) then 0 else 1 + LineLength(s[1..])
  }

  function NonEmpty(line: string): seq<string> {
    if line == [] then [] else [line]
  }

  // A whole stream: every completed segment yields its text from the first brace on.
  function Frame(s: string, overlong: Overlong): (r: Scan)
    ensures |r.pending| <= MAX_LINE
    decreases |s|
  {
    var n := LineLength(s);
    if n == |s| then Segment(s, overlong)
    else
      var first, rest := Segment(s[..n], overlong), Frame(s[n + 1..], overlong);
      Scan(first.lines + NonEmpty(first.pending) + rest.lines, rest.pending)
  }

  /* ---- One more character ---- */

  // The loop body.
  function Feed(line: string, c: char, overlong: Overlong): Scan {
    if EndsLine(c) then Scan(NonEmpty(line), [])
    else if line == [] then Scan([], if c == '{' then [c] else [])
    else if |line| < MAX_LINE then Scan([], line + [c])
    else Scan(if overlong.Process? then [line] else [], [])
  }

  lemma {:induction false} FromBraceSnoc(s: string, c: char)
    ensures FromBrace(s + [c])
            == if FromBrace(s) != [] then FromBrace(s) + [c] else if c == '{' then [c] else []
  {
    if s != [] && s[0] != '{' {
      FromBraceSnoc(s[1..], c);
      assert (s + [c])[1..] == s[1..] + [c];
    } else if s == [] {
      assert s + [c] == [c] && [c][1..] == [];
    }
  }

  lemma {:induction false} SegmentSnoc(s: string, c: char, overlong: Overlong)
    requires !EndsLine(c)
    ensures var before, step := Segment(s, overlong), Feed(Segment(s, overlong).pending, c, overlong);
            Segment(s + [c], overlong) == Scan(before.lines + step.lines, step.pending)
    decreases |s|
  {
    var t := FromBrace(s);
    FromBraceSnoc(s, c);
    if |t| == MAX_LINE {
      var u := t + [c];
      assert u[BUFFER_SIZE..] == [] && u[..MAX_LINE] == t;
      assert Segment([], overlong) == Scan([], []);
    } else if |t| > MAX_LINE {
      SegmentSnoc(t[BUFFER_SIZE..], c, overlong);
      assert (t + [c])[BUFFER_SIZE..] == t[BUFFER_SIZE..] + [c] && (t + [c])[..MAX_LINE] == t[..MAX_LINE];
      var forced := if overlong.Process? then [t[..MAX_LINE]] else [];
      var rest := Segment(t[BUFFER_SIZE..], overlong);
      var step := Feed(rest.pending, c, overlong);
      assert forced + (rest.lines + step.lines) == forced + rest.lines + step.lines;
    }
  }

  lemma {:induction false} LineLengthSnoc(s: string, c: char)
    ensures LineLength(s + [c])
            == if LineLength(s) < |s| then LineLength(s) else if EndsLine(c) then |s| else |s| + 1
  {
    if s != [] && !EndsLine(s[0]) {
      LineLengthSnoc(s[1..], c);
      assert (s + [c])[1..] == s[1..] + [c];
    } else if s == [] {
      assert s + [c] == [c] && [c][1..] == [];
    }
  }

  // The loop body computes the specification one character at a time.
  lemma {:induction false} FrameSnoc(s: string, c: char, overlong: Overlong)
    ensures var before, step := Frame(s, overlong), Feed(Frame(s, overlong).pending, c, overlong);
            Frame(s + [c], overlong) == Scan(before.lines + step.lines, step.pending)
    decreases |s|
  {
    hide Segment, Feed, LineLength, FromBrace, NonEmpty;
    var n := LineLength(s);
    LineLengthSnoc(s, c);
    if n < |s| {
      FrameSnoc(s[n + 1..], c, overlong);
      assert (s + [c])[n + 1..] == s[n + 1..] + [c] && (s + [c])[..n] == s[..n];
      var first, rest := Segment(s[..n], overlong), Frame(s[n + 1..], overlong);
      var step := Feed(rest.pending, c, overlong);
      assert first.lines + NonEmpty(first.pending) + (rest.lines + step.lines)
          == first.lines + NonEmpty(first.pending) + rest.lines + step.lines;
    } else if EndsLine(c) {
      assert (s + [c])[..n] == s && (s + [c])[n + 1..] == [];
      EmptyFrame(overlong);
      FeedEnd(Segment(s, overlong).pending, c, overlong);
      var seg := Segment(s, overlong);
      assert seg.lines + NonEmpty(seg.pending) + [] == seg.lines + NonEmpty(seg.pending);
    } else {
      SegmentSnoc(s, c, overlong);
    }
  }

  lemma EmptyFrame(overlong: Overlong)
    ensures Frame([], overlong) == Scan([], [])
  {
  }

  lemma FeedEnd(line: string, c: char, overlong: Overlong)
    requires EndsLine(c)
    ensures Feed(line, c, overlong) == Scan(NonEmpty(line), [])
  {
  }

  /* ---- What a stream of lines looks like ---- */

  // What comes after a point depends only on the lines and the buffer there.
  lemma {:induction false} FrameAppend(a: string, b: string, t: string, overlong: Overlong)
    requires Frame(a, overlong) == Frame(b, overlong)
    ensures Frame(a + t, overlong) == Frame(b + t, overlong)
  {
    hide Frame;
    if t == [] {
      assert a + t == a && b + t == b;
    } else {
      var n := |t| - 1;
      FrameAppend(a, b, t[..n], overlong);
      FrameSnoc(a + t[..n], t[n], overlong);
      FrameSnoc(b + t[..n], t[n], overlong);
      assert a + t == a + t[..n] + [t[n]] && b + t == b + t[..n] + [t[n]];
    }
  }

  // Carriage return, line feed and both together end a line alike, anywhere in a stream.
  lemma {:induction false} LineEndsAlike(s: string, t: string, overlong: Overlong)
    ensures Frame(s + "\r" + t, overlong) == Frame(s + "\n" + t, overlong) == Frame(s + "\r\n" + t, overlong)
  {
    FrameSnoc(s, '\r', overlong);
    FrameSnoc(s, '\n', overlong);
    FrameSnoc(s + "\r", '\n', overlong);
    hide Frame;
    var before := Frame(s, overlong);
    assert before.lines + NonEmpty(before.pending) + [] == before.lines + NonEmpty(before.pending);
    assert s + "\r\n" == s + "\r" + ['\n'] && s + "\n" == s + ['\n'] && s + "\r" == s + ['\r'];
    FrameAppend(s + "\r", s + "\n", t, overlong);
    FrameAppend(s + "\r\n", s + "\n", t, overlong);
  }

  // A line begins with a brace, fits the buffer and holds no line end.
  ghost predicate CleanLine(line: string) {
    0 < |line| <= 1023 && line[0] == '{' && '\n' !in line && '\r' !in line
  }

  lemma {:induction false} LinesAreClean(s: string, overlong: Overlong)
    ensures var r := Frame(s, overlong);
            && (forall line :: line in r.lines ==> CleanLine(line))
            && (r.pending != [] ==> CleanLine(r.pending))
  {
    if s == [] {
      EmptyFrame(overlong);
    } else {
      var n := |s| - 1;
      LinesAreClean(s[..n], overlong);
      FrameSnoc(s[..n], s[n], overlong);
      assert s == s[..n] + [s[n]];
      hide Frame;
      FeedIsClean(Frame(s[..n], overlong).pending, s[n], overlong);
    }
  }

  lemma FeedIsClean(line: string, c: char, overlong: Overlong)
    requires line == [] || CleanLine(line)
    ensures var step := Feed(line, c, overlong);
            && (forall l :: l in step.lines ==> CleanLine(l)) && (step.pending != [] ==> CleanLine(step.pending))
  {
  }

  /* ---- The loop, on a fixed buffer ---- */

  // A line buffer and the commands waiting to be processed. `seen` is every character received so
  // far and `emitted` every line completed; `taken` is every command the processor has had. A full
  // BLE queue drops a line, which `dropped` records; the UART console processes each line at once.
  class LineFramer {
    const overlong: Overlong
    const line: array<char>
    var lineLen: nat
    var commands: seq<string>
    ghost var seen: string
    ghost var emitted: seq<string>
    ghost var taken: seq<string>
    ghost var dropped: bool

    ghost predicate Valid()
      reads this, line
    {
      && line.Length == BUFFER_SIZE && lineLen <= MAX_LINE
      && line[..lineLen] == Frame(seen, overlong).pending
      && emitted == Frame(seen, overlong).lines
      && (!dropped ==> taken + commands == CStrings(emitted))
    }

    constructor (overlong: Overlong)
      ensures Valid() && fresh(line) && seen == [] && commands == [] && !dropped
      ensures this.overlong == overlong
    {
      this.overlong := overlong;
      line := new char[BUFFER_SIZE];
      lineLen, commands, seen, emitted, taken, dropped := 0, [], [], [], [], false;
    }

    // `queue_line`: what the processor later sees stops at an embedded NUL.
    method Emit(text: string)
      modifies this`commands, this`emitted, this`dropped
      ensures emitted == old(emitted) + [text]
      ensures dropped == (old(dropped) || (overlong.Drop? && |old(commands)| >= 8))
      ensures commands
              == old(commands) + if overlong.Drop? && |old(commands)| >= QUEUE_DEPTH then [] else [CString(text)]
    {
      emitted := emitted + [text];
      if overlong.Drop? && |commands| >= QUEUE_DEPTH {
        dropped := true;
      } else {
        commands := commands + [CString(text)];
      }
    }

    // Characters may arrive cut up in any way: the state depends on what was seen in all.
    method FeedRxBytes(data: string)
      requires Valid()
      modifies this, line
      ensures Valid() && seen == old(seen) + data && taken == old(taken)
      ensures |emitted| >= |old(emitted)|
      ensures !old(dropped) && |old(commands)| + |emitted| - |old(emitted)| <= QUEUE_DEPTH ==> !dropped
    {
      assert data[..0] == [] && seen + [] == seen;
      var i := 0;
      while i < |data|
        invariant 0 <= i <= |data| && Valid() && seen == old(seen) + data[..i] && taken == old(taken)
        invariant |emitted| >= |old(emitted)|
        invariant |commands| <= |old(commands)| + |emitted| - |old(emitted)|
        invariant !old(dropped) && |old(commands)| + |emitted| - |old(emitted)| <= QUEUE_DEPTH ==> !dropped
      {
        FeedByte(data[i]);
        assert old(seen) + data[..i + 1] == old(seen) + data[..i] + [data[i]];
        i := i + 1;
      }
      assert data[..|data|] == data;
    }

    method FeedByte(c: char)
      requires Valid()
      modifies this, line
      ensures Valid() && seen == old(seen) + [c] && taken == old(taken)
      ensures |old(emitted)| <= |emitted| <= |old(emitted)| + 1
      ensures |commands| <= |old(commands)| + |emitted| - |old(emitted)|
      ensures !old(dropped) && |old(commands)| + |emitted| - |old(emitted)| <= QUEUE_DEPTH ==> !dropped
    {
      ghost var text := line[..lineLen];
      FrameSnoc(seen, c, overlong);
      CStringsSnoc(emitted, text);
      FeedEmits(text, c, overlong);
      hide Frame, CStrings, CString, Feed;
      assert taken + commands + [CString(text)] == taken + (commands + [CString(text)]);
      ghost var lines := Feed(text, c, overlong).lines;
      assert lines == [] ==> emitted + lines == emitted;
      PushByte(c);
      seen := seen + [c];
    }

    // The loop body of `feed_rx_bytes` and `uart_command_task`.
    method PushByte(c: char)
      requires line.Length == BUFFER_SIZE && lineLen <= MAX_LINE
      modifies this`lineLen, this`commands, this`emitted, this`dropped, line
      ensures lineLen <= MAX_LINE
      ensures var step := Feed(old(line[..lineLen]), c, overlong);
              && line[..lineLen] == step.pending
              && emitted == old(emitted) + step.lines
              && (step.lines == [] ==> commands == old(commands) && dropped == old(dropped))
              && (step.lines != [] ==>
                    var full := overlong.Drop? && |old(commands)| >= QUEUE_DEPTH;
                    && dropped == (old(dropped) || full)
                    && commands == old(commands) + if full then [] else [CString(step.lines[0])])
      // Either line end completes what is buffered; a line starts at a brace; the 1024th character of
      // a line is lost together with the buffer, which the UART console has processed first.
      ensures c == '\n' || c == '\r' ==>
                lineLen == 0 && emitted == old(emitted) + if old(lineLen) > 0 then [old(line[..lineLen])] else []
      ensures c != '\n' && c != '\r' && old(lineLen) < 1023 ==>
                && emitted == old(emitted)
                && line[..lineLen] == if old(lineLen) == 0 && c != '{' then [] else old(line[..lineLen]) + [c]
      ensures c != '\n' && c != '\r' && old(lineLen) == 1023 ==>
                lineLen == 0 && emitted == old(emitted) + if overlong.Process? then [old(line[..lineLen])] else []
    {
      hide CString;
      if EndsLine(c) {
        if lineLen > 0 {
          Emit(line[..lineLen]);
          lineLen := 0;
        }
      } else if lineLen == 0 {
        if c == '{' {
          line[lineLen] := c;
          lineLen := lineLen + 1;
        }
      } else if lineLen < MAX_LINE {
        line[lineLen] := c;
        lineLen := lineLen + 1;
      } else {
        if overlong.Process? {
          Emit(line[..lineLen]);
        }
        lineLen := 0;
      }
    }

    // The command task takes the oldest command.
    method TakeCommand() returns (cmd: string)
      requires Valid() && commands != []
      modifies this`commands, this`taken
      ensures Valid() && cmd == old(commands)[0] && commands == old(commands)[1..]
      ensures taken == old(taken) + [cmd]
    {
      cmd := commands[0];
      assert taken + commands == taken + [cmd] + commands[1..];
      commands, taken := commands[1..], taken + [cmd];
    }
  }

  lemma FeedEmits(line: string, c: char, overlong: Overlong)
    ensures Feed(line, c, overlong).lines == [] || Feed(line, c, overlong).lines == [line]
  {
  }

  function CStrings(lines: seq<string>): (r: seq<string>)
    ensures |r| == |lines|
  {
    if lines == [] then [] else [CString(lines[0])] + CStrings(lines[1..])
  }

  lemma {:induction false} CStringsSnoc(lines: seq<string>, line: string)
    ensures CStrings(lines + [line]) == CStrings(lines) + [CString(line)]
  {
    hide CString;
    if lines == [] {
      assert lines + [line] == [line] && [line][1..] == [];
    } else {
      CStringsSnoc(lines[1..], line);
      assert (lines + [line])[1..] == lines[1..] + [line];
    }
  }

  /* ---- What the two consoles have in common ---- */

  // No segment's text from its first brace on outgrows the buffer.
  ghost predicate NoOverlong(s: string)
    decreases |s|
  {
    var n := LineLength(s);
    |FromBrace(s[..n])| <= MAX_LINE && (n < |s| ==> NoOverlong(s[n + 1..]))
  }

  // The texts of the completed segments.
  function Commands(s: string): seq<string>
    decreases |s|
  {
    var n := LineLength(s);
    if n == |s| then [] else NonEmpty(FromBrace(s[..n])) + Commands(s[n + 1..])
  }

  // On streams without an overlong line, either console emits exactly the text of each segment from
  // its first brace on.
  lemma {:induction false} FramesSegments(s: string, overlong: Overlong)
    requires NoOverlong(s)
    ensures Frame(s, overlong).lines == Commands(s)
    decreases |s|
  {
    hide Segment, FromBrace, LineLength, NonEmpty;
    var n := LineLength(s);
    var t := FromBrace(s[..n]);
    ShortSegment(s[..n], overlong);
    if n == |s| {
      assert s[..n] == s;
    } else {
      FramesSegments(s[n + 1..], overlong);
      assert [] + NonEmpty(t) + Commands(s[n + 1..]) == Commands(s);
    }
  }

  lemma ShortSegment(s: string, overlong: Overlong)
    ensures |FromBrace(s)| <= MAX_LINE ==> Segment(s, overlong) == Scan([], FromBrace(s))
  {
    hide FromBrace;
  }

  // How many times a buffer overflows.
  function Overflows(s: string): nat
    decreases |s|
  {
    var t := FromBrace(s);
    if |t| <= MAX_LINE then 0 else 1 + Overflows(t[BUFFER_SIZE..])
  }

  lemma {:induction false} SegmentsCompared(s: string)
    ensures |Segment(s, Process).lines| == |Segment(s, Drop).lines| + Overflows(s)
    ensures Segment(s, Process).pending == Segment(s, Drop).pending
    decreases |s|
  {
    var t := FromBrace(s);
    if |t| > MAX_LINE {
      SegmentsCompared(t[BUFFER_SIZE..]);
    }
  }

  lemma {:induction false} FramesCompared(s: string)
    ensures |Frame(s, Drop).lines| <= |Frame(s, Process).lines|
    ensures |Frame(s, Drop).lines| == |Frame(s, Process).lines| <==> NoOverlong(s)
    ensures Frame(s, Drop).pending == Frame(s, Process).pending
    decreases |s|
  {
    var n := LineLength(s);
    SegmentsCompared(s[..n]);
    OverflowsZero(s[..n]);
    hide Segment, Overflows, FromBrace, LineLength;
    if n < |s| {
      FramesCompared(s[n + 1..]);
    } else {
      assert s[..n] == s;
    }
  }

  // The consoles agree on a stream exactly when no line in it is overlong: otherwise the UART console
  // also processes the truncated line, and emits more.
  lemma {:induction false} ConsolesAgreeExactly(s: string)
    ensures Frame(s, Drop).lines == Frame(s, Process).lines <==> NoOverlong(s)
    ensures !NoOverlong(s) ==> |Frame(s, Drop).lines| < |Frame(s, Process).lines|
  {
    FramesCompared(s);
    hide Frame;
    if NoOverlong(s) {
      FramesSegments(s, Drop);
      FramesSegments(s, Process);
    }
  }

  lemma OverflowsZero(s: string)
    ensures Overflows(s) == 0 <==> |FromBrace(s)| <= MAX_LINE
  {
  }
}
