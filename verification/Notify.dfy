/**
 Device-to-host messages: the device slices each message into notifications, whose size follows the
 connection's MTU at that moment; the host puts the bytes back together and splits them at newlines.
 */
module Notify {
  import opened Common

  const MIN_CHUNK := 20

  function MaxChunk(mtu: nat): (n: nat)
    // A notification's three-byte header and its payload fill the MTU, down to a payload of 20 bytes.
    ensures if mtu >= 23 then n + 3 == mtu else n == 20
  {
    if mtu > 3 && mtu - 3 >= MIN_CHUNK then mtu - 3 else MIN_CHUNK
  }

  function Concat(chunks: seq<string>): string {
    if chunks == [] then "" else Concat(chunks[..|chunks| - 1]) + chunks[|chunks| - 1]
  }

  // One peer's loop in `meb_ble_console_write`: `mtu(k)` is what the stack answers before the k-th
  // notification, and `sent(k)` whether that notification goes out.
  method SendMessage(data: string, mtu: nat -> nat, sent: nat -> bool) returns (chunks: seq<string>)
    ensures Concat(chunks) <= data
    ensures Concat(chunks) == data || !sent(|chunks|)
    ensures forall k :: 0 <= k < |chunks| ==> sent(k) && 0 < |chunks[k]| <= MaxChunk(mtu(k))
    // Only the last notification may be shorter than the link allows.
    ensures forall k :: 0 <= k < |chunks| && |chunks[k]| < MaxChunk(mtu(k)) ==>
              k == |chunks| - 1 && Concat(chunks) == data
  {
    hide MaxChunk, Concat;
    chunks := [];
    var offset := 0;
    ConcatNothing();
    while offset < |data|
      invariant offset <= |data| && Concat(chunks) == data[..offset]
      invariant forall k :: 0 <= k < |chunks| ==> sent(k) && 0 < |chunks[k]| <= MaxChunk(mtu(k))
      invariant forall k :: 0 <= k < |chunks| && |chunks[k]| < MaxChunk(mtu(k)) ==>
                              k == |chunks| - 1 && offset == |data|
    {
      var chunkLen := |data| - offset;
      if chunkLen > MaxChunk(mtu(|chunks|)) {
        chunkLen := MaxChunk(mtu(|chunks|));
      }
      if !sent(|chunks|) {
        return;
      }
      ConcatNext(chunks, data[offset..offset + chunkLen]);
      assert data[..offset] + data[offset..offset + chunkLen] == data[..offset + chunkLen];
      chunks := chunks + [data[offset..offset + chunkLen]];
      offset := offset + chunkLen;
    }
    assert data[..|data|] == data;
  }

  lemma ConcatNothing()
    ensures Concat([]) == ""
  {
  }

  lemma ConcatNext(chunks: seq<string>, chunk: string)
    ensures Concat(chunks + [chunk]) == Concat(chunks) + chunk
  {
    assert (chunks + [chunk])[..|chunks|] == chunks;
  }

  /* ---- Reassembly ---- */

  // The lines a stream completes, and what is left over.
  datatype Lines = Lines(complete: seq<string>, rest: string)

  function SplitLines(s: string): Lines {
    if s == [] then Lines([], [])
    else
      var tail := SplitLines(s[1..]);
      if s[0] == '\n' then Lines([[]] + tail.complete, tail.rest)
      else if tail.complete == [] then Lines([], [s[0]] + tail.rest)
      else Lines([[s[0]] + tail.complete[0]] + tail.complete[1..], tail.rest)
  }

  lemma {:induction false} SplitAtNewline(line: string, rest: string)
    requires '\n' !in line
    ensures SplitLines(line + "\n" + rest) == Lines([line] + SplitLines(rest).complete, SplitLines(rest).rest)
  {
    var s := line + "\n" + rest;
    if line == [] {
      assert s[1..] == rest;
    } else {
      SplitAtNewline(line[1..], rest);
      assert s[1..] == line[1..] + "\n" + rest;
      assert line[0] in line && line == [line[0]] + line[1..];
    }
  }

  lemma {:induction false} NoNewline(s: string)
    requires '\n' !in s
    ensures SplitLines(s) == Lines([], s)
  {
    if s != [] {
      NoNewline(s[1..]);
      assert s[0] in s && s == [s[0]] + s[1..];
    }
  }

  function IndexOfNewline(s: string): (n: nat)
    requires '\n' in s
    ensures n < |s| && s[n] == '\n' && '\n' !in s[..n]
  {
    if s[0] == '\n' then 0
    else
      var n := IndexOfNewline(s[1..]);
      assert s[..n + 1] == [s[0]] + s[1..][..n];
      n + 1
  }

  // Splitting a longer stream only needs what was left over before.
  lemma {:induction false} SplitAppend(a: string, b: string)
    ensures var first := SplitLines(a);
            var second := SplitLines(first.rest + b);
            SplitLines(a + b) == Lines(first.complete + second.complete, second.rest)
    ensures '\n' !in SplitLines(a).rest
    decreases |a|
  {
    hide SplitLines;
    if '\n' !in a {
      NoNewline(a);
      assert [] + SplitLines(a + b).complete == SplitLines(a + b).complete;
    } else {
      var n := IndexOfNewline(a);
      var line, tail := a[..n], a[n + 1..];
      assert a == line + "\n" + tail;
      SplitAppend(tail, b);
      SplitAtNewline(line, tail);
      SplitAtNewline(line, tail + b);
      assert a + b == line + "\n" + (tail + b);
      var first := SplitLines(tail);
      var second := SplitLines(first.rest + b);
      assert [line] + (first.complete + second.complete) == [line] + first.complete + second.complete;
    }
  }

  /* ---- What the host makes of a line ---- */

  // The characters Python's `bytes.strip` removes: blank, tab, line feed, vertical tab, form feed and
  // carriage return.
  predicate IsSpace(c: char) {
    c == ' ' || 9 <= c as int <= 13
  }

  const SPACES := " \t\n\r" + [11 as char, 12 as char]

  function Strip(s: string): (r: string)
    ensures |r| <= |s|
    ensures r != [] ==> !IsSpace(r[0]) && !IsSpace(r[|r| - 1])
    ensures s != [] && !IsSpace(s[0]) && !IsSpace(s[|s| - 1]) ==> r == s
    decreases |s|
  {
    if s == [] then []
    else if IsSpace(s[0]) then Strip(s[1..])
    else if IsSpace(s[|s| - 1]) then Strip(s[..|s| - 1])
    else s
  }

  ghost predicate Blank(s: string) {
    forall i :: 0 <= i < |s| ==> IsSpace(s[i])
  }

  lemma BlankIsSpaces(s: string)
    ensures Blank(s) <==> forall c :: c in s ==> c in SPACES
  {
    forall i | 0 <= i < |s| ensures IsSpace(s[i]) <==> s[i] in SPACES {
      SpacesAre(s[i]);
    }
  }

  lemma SpacesAre(c: char)
    ensures IsSpace(c) <==> c in SPACES
  {
    assert SPACES == [' ', '\t', '\n', '\r', 11 as char, 12 as char];
  }

  // Only white space is lost, and only at the ends: stripping a text stops at its first and last other
  // characters.
  lemma {:induction false} StripExactly(s: string) returns (before: string, after: string)
    ensures s == before + Strip(s) + after && forall c :: c in before || c in after ==> c in SPACES
    ensures Strip(s) != [] ==> Strip(s)[0] !in SPACES && Strip(s)[|Strip(s)| - 1] !in SPACES
  {
    before, after := StripKeepsText(s);
    hide Strip, Blank, IsSpace;
    BlankIsSpaces(before);
    BlankIsSpaces(after);
    if Strip(s) != [] {
      SpacesAre(Strip(s)[0]);
      SpacesAre(Strip(s)[|Strip(s)| - 1]);
    }
  }

  lemma {:induction false} StripKeepsText(s: string) returns (before: string, after: string)
    ensures s == before + Strip(s) + after && Blank(before) && Blank(after)
    decreases |s|
  {
    before, after := [], [];
    if s != [] && IsSpace(s[0]) {
      before, after := StripKeepsText(s[1..]);
      FirstAndRest(s, before, Strip(s[1..]), after);
      before := [s[0]] + before;
    } else if s != [] && IsSpace(s[|s| - 1]) {
      before, after := StripKeepsText(s[..|s| - 1]);
      RestAndLast(s, before, Strip(s[..|s| - 1]), after);
      after := after + [s[|s| - 1]];
    }
  }

  lemma FirstAndRest(s: string, a: string, b: string, c: string)
    requires s != [] && s[1..] == a + b + c
    ensures s == [s[0]] + a + b + c
  {
    assert s == [s[0]] + s[1..];
  }

  lemma RestAndLast(s: string, a: string, b: string, c: string)
    requires s != [] && s[..|s| - 1] == a + b + c
    ensures s == a + b + (c + [s[|s| - 1]])
  {
    assert s == s[..|s| - 1] + [s[|s| - 1]];
  }

  // Lines that are not blank, stripped: what is handed on to be decoded as JSON.
  function Texts(lines: seq<string>): seq<string> {
    if lines == [] then []
    else
      var text := Strip(lines[|lines| - 1]);
      Texts(lines[..|lines| - 1]) + if text == [] then [] else [text]
  }

  lemma {:induction false} TextsAppend(a: seq<string>, b: seq<string>)
    ensures Texts(a + b) == Texts(a) + Texts(b)
  {
    hide Strip;
    if b == [] {
      assert a + b == a;
    } else {
      assert (a + b)[..|a + b| - 1] == a + b[..|b| - 1];
      TextsAppend(a, b[..|b| - 1]);
    }
  }

  // A message as the device formats it: one line with a visible character at either end.
  predicate OneMessage(s: string) {
    '\n' !in s && s != [] && !IsSpace(s[0]) && !IsSpace(s[|s| - 1])
  }

  lemma {:induction false} TextsOfMessages(lines: seq<string>)
    requires forall i :: 0 <= i < |lines| ==> OneMessage(lines[i])
    ensures Texts(lines) == lines
  {
    hide Strip;
    if lines != [] {
      var n := |lines| - 1;
      TextsOfMessages(lines[..n]);
      assert OneMessage(lines[n]) && Strip(lines[n]) == lines[n];
      assert lines == lines[..n] + [lines[n]];
    }
  }

  // `_on_notify`, up to the decoding of each text. `seen` is every byte received, `lines` what it
  // completes.
  class Reassembler {
    var rxBuffer: string
    var texts: seq<string>
    ghost var lines: seq<string>
    ghost var seen: string

    ghost predicate Valid()
      reads this
    {
      SplitLines(seen) == Lines(lines, rxBuffer) && '\n' !in rxBuffer && texts == Texts(lines)
    }

    constructor ()
      ensures Valid() && seen == []
    {
      rxBuffer, texts, lines, seen := [], [], [], [];
    }

    method OnNotify(data: string)
      requires Valid()
      modifies this
      ensures Valid() && seen == old(seen) + data
    {
      SplitAppend(seen, data);
      hide SplitLines, Strip;
      ghost var target := SplitLines(seen + data);
      seen := seen + data;
      rxBuffer := rxBuffer + data;
      while '\n' in rxBuffer
        invariant seen == old(seen) + data && target == SplitLines(seen)
        invariant target == Prepend(lines, SplitLines(rxBuffer)) && texts == Texts(lines)
        decreases |rxBuffer|
      {
        var n := IndexOfNewline(rxBuffer);
        var raw := rxBuffer[..n];
        PartitionAt(lines, rxBuffer, n);
        assert (lines + [raw])[..|lines|] == lines;
        lines := lines + [raw];
        rxBuffer := rxBuffer[n + 1..];
        var text := Strip(raw);
        if text != [] {
          texts := texts + [text];
        }
      }
      NoNewline(rxBuffer);
      assert lines + [] == lines;
    }
  }

  function Prepend(done: seq<string>, r: Lines): Lines {
    Lines(done + r.complete, r.rest)
  }

  lemma PartitionAt(done: seq<string>, buffer: string, n: nat)
    requires n < |buffer| && buffer[n] == '\n' && '\n' !in buffer[..n]
    ensures Prepend(done, SplitLines(buffer)) == Prepend(done + [buffer[..n]], SplitLines(buffer[n + 1..]))
  {
    hide SplitLines;
    assert buffer == buffer[..n] + "\n" + buffer[n + 1..];
    SplitAtNewline(buffer[..n], buffer[n + 1..]);
    var rest := SplitLines(buffer[n + 1..]).complete;
    assert done + ([buffer[..n]] + rest) == done + [buffer[..n]] + rest;
  }

  /* ---- Messages, some of them cut short ---- */

  // A message's text without its newline, and how many characters of the whole got through.
  datatype Transmission = Transmission(body: string, arrived: nat) {
    predicate Valid() {
      '\n' !in body && arrived <= |body| + 1
    }

    predicate Whole() {
      arrived == |body| + 1
    }

    function Arrived(): string
      requires Valid()
    {
      (body + "\n")[..arrived]
    }
  }

  type Delivery = t: Transmission | t.Valid() witness Transmission("", 0)

  function Stream(ds: seq<Delivery>): string
  {
    if ds == [] then "" else Stream(ds[..|ds| - 1]) + ds[|ds| - 1].Arrived()
  }

  // The fragments that stuck since the last message that got through whole.
  function Stuck(ds: seq<Delivery>): string
  {
    if ds == [] || ds[|ds| - 1].Whole() then ""
    else Stuck(ds[..|ds| - 1]) + ds[|ds| - 1].Arrived()
  }

  // What the host should see: one line for each whole message, glued to the fragments before it.
  function Received(ds: seq<Delivery>): seq<string>
  {
    if ds == [] then []
    else
      var before, d := ds[..|ds| - 1], ds[|ds| - 1];
      if d.Whole() then Received(before) + [Stuck(before) + d.body] else Received(before)
  }

  // However the bytes that arrive are cut into notifications, the host's lines are exactly these.
  lemma {:induction false} ReassemblyIsExact(ds: seq<Delivery>)
    ensures SplitLines(Stream(ds)) == Lines(Received(ds), Stuck(ds))
  {
    if ds != [] {
      var before, d := ds[..|ds| - 1], ds[|ds| - 1];
      ReassemblyIsExact(before);
      SplitAppend(Stream(before), d.Arrived());
      hide SplitLines;
      OneArrival(Stuck(before), d);
      assert Received(before) + [] == Received(before);
    }
  }

  // One message after the fragments that stuck before it.
  lemma OneArrival(stuck: string, d: Delivery)
    requires '\n' !in stuck
    ensures SplitLines(stuck + d.Arrived())
            == if d.Whole() then Lines([stuck + d.body], "") else Lines([], stuck + d.Arrived())
  {
    if d.Whole() {
      SplitAtNewline(stuck + d.body, "");
      assert SplitLines("") == Lines([], "");
      hide SplitLines;
      assert stuck + d.Arrived() == stuck + d.body + "\n" + "";
    } else {
      assert d.Arrived() == d.body[..d.arrived];
      NoNewline(stuck + d.Arrived());
    }
  }

  // Without failures the host receives exactly the messages sent.
  lemma {:induction false} AllDelivered(ds: seq<Delivery>)
    requires forall d :: d in ds ==> d.Whole()
    ensures Stuck(ds) == "" && |Received(ds)| == |ds|
    ensures forall i :: 0 <= i < |ds| ==> Received(ds)[i] == ds[i].body
  {
    if ds != [] {
      var before := ds[..|ds| - 1];
      AllDelivered(before);
      assert ds[|ds| - 1] in ds;
      assert "" + ds[|ds| - 1].body == ds[|ds| - 1].body;
    }
  }

  lemma {:induction false} ReceivedAppend(a: seq<Delivery>, b: seq<Delivery>)
    requires Stuck(a) == ""
    ensures Received(a + b) == Received(a) + Received(b) && Stuck(a + b) == Stuck(b)
  {
    if b == [] {
      assert a + b == a && Received(a) + [] == Received(a);
    } else {
      assert (a + b)[..|a + b| - 1] == a + b[..|b| - 1];
      ReceivedAppend(a, b[..|b| - 1]);
    }
  }

  lemma CutAndNext(cut: Delivery, next: Delivery)
    requires !cut.Whole() && next.Whole()
    ensures Received([cut, next]) == [cut.Arrived() + next.body] && Stuck([cut, next]) == ""
  {
    var pair := [cut, next];
    assert pair[..1] == [cut] && [cut][..0] == [];
    assert Stuck([cut]) == "" + cut.Arrived() == cut.Arrived() && Received([cut]) == [];
    assert [] + [cut.Arrived() + next.body] == [cut.Arrived() + next.body];
  }

  // One failure part-way through message `cut` loses at most that message and the next one:
  // everything before and after is received exactly.
  lemma {:induction false} OneFailureLosesTwo(before: seq<Delivery>, cut: Delivery, next: Delivery,
                                              after: seq<Delivery>)
    requires forall d :: d in before || d in after ==> d.Whole()
    requires !cut.Whole() && next.Whole()
    ensures SplitLines(Stream(before + [cut, next] + after))
            == Lines(Received(before) + [cut.Arrived() + next.body] + Received(after), "")
    ensures |Received(before)| == |before| && forall i :: 0 <= i < |before| ==> Received(before)[i] == before[i].body
    ensures |Received(after)| == |after| && forall i :: 0 <= i < |after| ==> Received(after)[i] == after[i].body
  {
    AllDelivered(before);
    AllDelivered(after);
    ReassemblyIsExact(before + [cut, next] + after);
    CutAndNext(cut, next);
    ReceivedAppend(before, [cut, next]);
    ReceivedAppend(before + [cut, next], after);
  }

  /* ---- From the device to the host ---- */

  // One message and its newline: sliced by the device while the link takes its notifications, and put
  // back together by the host.
  method Deliver(r: Reassembler, body: string, mtu: nat -> nat, sent: nat -> bool) returns (d: Delivery)
    requires r.Valid() && '\n' !in body
    modifies r
    ensures r.Valid() && d.body == body && r.seen == old(r.seen) + d.Arrived()
    ensures (forall k :: sent(k)) ==> d.Whole()
  {
    hide Concat, SplitLines, Texts, Transmission.Arrived;
    var message := body + "\n";
    var chunks := SendMessage(message, mtu, sent);
    var arrived := Notifications(r, chunks);
    d := Transmission(body, arrived);
    ArrivedIs(d, Concat(chunks));
  }

  lemma ArrivedIs(d: Delivery, s: string)
    requires s <= d.body + "\n" && |s| == d.arrived
    ensures d.Arrived() == s
  {
  }

  // The notifications of one message, one after the other, and how many characters they carry.
  method Notifications(r: Reassembler, chunks: seq<string>) returns (arrived: nat)
    requires r.Valid()
    modifies r
    ensures r.Valid() && r.seen == old(r.seen) + Concat(chunks) && arrived == |Concat(chunks)|
  {
    hide SplitLines, Texts;
    arrived := 0;
    ghost var seen := r.seen;
    for i := 0 to |chunks|
      invariant r.Valid() && r.seen == seen + Concat(chunks[..i]) && arrived == |Concat(chunks[..i])|
    {
      assert chunks[..i + 1][..i] == chunks[..i];
      assert seen + Concat(chunks[..i]) + chunks[i] == seen + (Concat(chunks[..i]) + chunks[i]);
      r.OnNotify(chunks[i]);
      arrived := arrived + |chunks[i]|;
    }
    assert chunks[..|chunks|] == chunks;
  }

  // Any messages over any link: `mtu(i)` and `sent(i)` are the link while the i-th message goes out.
  // What the host hands on is exactly what the stream of messages, whole or cut, makes of it, and
  // without failures it is the messages.
  method DeliverAll(r: Reassembler, bodies: seq<string>, mtu: nat -> nat -> nat, sent: nat -> nat -> bool)
    returns (ds: seq<Delivery>)
    requires r.Valid() && r.rxBuffer == "" && forall body :: body in bodies ==> '\n' !in body
    modifies r
    ensures r.Valid() && Sent(ds, bodies, sent)
    ensures r.lines == old(r.lines) + Received(ds) && r.rxBuffer == Stuck(ds)
    ensures r.texts == old(r.texts) + Texts(Received(ds))
    ensures (forall i, k :: sent(i)(k)) && (forall body :: body in bodies ==> OneMessage(body)) ==>
              r.texts == old(r.texts) + bodies && r.rxBuffer == ""
  {
    hide SplitLines, Texts, Received, Stuck, Stream, Sent, OneMessage, Transmission.Arrived, Transmission.Whole;
    ds := [];
    ghost var seen := r.seen;
    SentNothing(bodies, sent);
    for i := 0 to |bodies|
      invariant r.Valid() && r.seen == seen + Stream(ds) && Sent(ds, bodies[..i], sent)
    {
      assert bodies[i] in bodies;
      var d := Deliver(r, bodies[i], mtu(i), sent(i));
      SentNext(ds, bodies, i, d, sent);
      assert seen + Stream(ds) + d.Arrived() == seen + (Stream(ds) + d.Arrived());
      ds := ds + [d];
    }
    assert bodies[..|bodies|] == bodies;
    StreamIsReceived(seen, ds);
    TextsAppend(old(r.lines), Received(ds));
    AllTexts(ds, bodies, sent);
  }

  lemma SentNothing(bodies: seq<string>, sent: nat -> nat -> bool)
    ensures Sent([], bodies[..0], sent) && Stream([]) == ""
  {
  }

  lemma SentNext(ds: seq<Delivery>, bodies: seq<string>, i: nat, d: Delivery, sent: nat -> nat -> bool)
    requires i < |bodies| && Sent(ds, bodies[..i], sent)
    requires d.body == bodies[i] && ((forall k :: sent(i)(k)) ==> d.Whole())
    ensures Sent(ds + [d], bodies[..i + 1], sent) && Stream(ds + [d]) == Stream(ds) + d.Arrived()
  {
    hide Transmission.Whole, Transmission.Arrived;
    assert (ds + [d])[..|ds|] == ds;
  }

  // One transmission for each message, whole where no notification fails.
  ghost predicate Sent(ds: seq<Delivery>, bodies: seq<string>, sent: nat -> nat -> bool) {
    && |ds| == |bodies|
    && forall i :: 0 <= i < |ds| ==> ds[i].body == bodies[i] && ((forall k :: sent(i)(k)) ==> ds[i].Whole())
  }

  lemma AllTexts(ds: seq<Delivery>, bodies: seq<string>, sent: nat -> nat -> bool)
    requires Sent(ds, bodies, sent)
    ensures (forall i, k :: sent(i)(k)) && (forall body :: body in bodies ==> OneMessage(body)) ==>
              Texts(Received(ds)) == bodies && Stuck(ds) == ""
  {
    hide Texts, OneMessage, Received, Stuck;
    if (forall i, k :: sent(i)(k)) && forall body :: body in bodies ==> OneMessage(body) {
      AllDelivered(ds);
      assert Received(ds) == bodies;
      TextsOfMessages(bodies);
    }
  }

  lemma StreamIsReceived(seen: string, ds: seq<Delivery>)
    requires SplitLines(seen).rest == ""
    ensures SplitLines(seen + Stream(ds)) == Lines(SplitLines(seen).complete + Received(ds), Stuck(ds))
  {
    ReassemblyIsExact(ds);
    SplitAppend(seen, Stream(ds));
    assert "" + Stream(ds) == Stream(ds);
  }
}
