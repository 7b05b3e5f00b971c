/**
 End-to-end delivery: the host's update loop, its requests cut into BLE writes, and the device's
 console that frames, parses and executes them.
 */
module HostUpdate {
  import opened Common
  import opened Arithmetic
  import opened Base64
  import opened Sha256Hex
  import opened OtaUpdate
  import opened OtaSafety
  import opened OtaDevice
  import opened JsonScalars
  import opened Commands
  import opened Requests
  import Framing

  const MAX_GATT_WRITE := 1024

  // Which platform calls succeed while one command is executed.
  datatype Env = Env(begin: BeginEnv, write: WriteEnv, end: EndEnv, cancel: CancelEnv, rebootTask: bool)

  const HEALTHY := Env(BeginEnv(true, true, true), Stored, EndEnv(true, true, true), CancelEnv(true, true), true)

  // What the device answers. Commands outside the update protocol are `OtherReply`.
  datatype Reply =
    | OtherReply
    | ErrorReply(error: EspErr)
    | StatusReply(status: Status, maxBase64Chars: nat)
    | WriteReply(received: uint32, written: uint32, expectedSize: uint32)
    | RebootReply

  // The handlers of `firmware.*`: the call, then the answer built from its result.
  function Execute(sha: seq<byte> -> Digest, d: Device, c: Command, env: Env): (Device, Reply) {
    match c
    case FirmwareBegin(_, size, hex) => Answer(BeginSpec(d, size, hex, env.begin))
    case FirmwareWrite(_, offset, data) =>
      var (d', err, received) := WriteSpec(d, offset, data, env.write);
      (d', if err == EspOk then WriteReply(received, d'.ota.written, d'.ota.expectedSize) else ErrorReply(err))
    case FirmwareEnd(_) => Answer(EndSpec(sha, d, env.end))
    case FirmwareCancel(_) => Answer(CancelSpec(d, env.cancel))
    case FirmwareStatus(_) => Answer((d, EspOk))
    case FirmwareReboot(_) =>
      (d, if !d.ota.pending then ErrorReply(InvalidState)
          else if env.rebootTask then RebootReply else ErrorReply(NoMemory))
    case _ => (d, OtherReply)
  }

  function Answer(r: (Device, EspErr)): (Device, Reply) {
    (r.0, if r.1 == EspOk then StatusReply(StatusSpec(r.0.ota), MAX_BASE64_CHARS) else ErrorReply(r.1))
  }

  // What a command does to the device, as a step of the update machine.
  function StepOf(c: Command, env: Env): Event {
    match c
    case FirmwareBegin(_, size, hex) => OtaSafety.Begin(size, hex, env.begin)
    case FirmwareWrite(_, offset, data) => Write(offset, data, env.write)
    case FirmwareEnd(_) => End(env.end)
    case FirmwareCancel(_) => Cancel(env.cancel)
    case _ => QueryStatus
  }

  // Whatever text arrives as a command, it makes one step of the update machine or none: everything
  // proved of its runs holds for every sequence of command lines.
  lemma {:induction false} CommandIsAStep(sha: seq<byte> -> Digest, d: Device, cmd: string, env: Env)
    ensures Execute(sha, d, Dispatch(cmd), env).0 == Step(sha, d, StepOf(Dispatch(cmd), env))
    ensures Inv(sha, d) ==> Inv(sha, Execute(sha, d, Dispatch(cmd), env).0)
  {
    hide Inv, Dispatch, Decode, ParseSha256;
    if Inv(sha, d) {
      StepKeepsInv(sha, d, StepOf(Dispatch(cmd), env));
    }
  }

  // The answer to `begin`, `end` and `cancel` tells whether the call did its work, and what is now so.
  lemma {:induction false} AnswersTellTheOutcome(sha: seq<byte> -> Digest, d: Device, cmd: string, env: Env)
    requires Inv(sha, d)
    ensures var c := Dispatch(cmd);
            var (d', reply) := Execute(sha, d, c, env);
            && (reply.StatusReply? ==> Tells(reply.status, d') && reply.maxBase64Chars == 768)
            && (c.FirmwareBegin? ==> (reply.StatusReply? <==> !d.ota.active && d'.ota.active))
            && (c.FirmwareEnd? ==> (reply.StatusReply? <==> !d.ota.pending && d'.ota.pending))
            && (c.FirmwareCancel? ==> (reply.StatusReply? <==> (d.ota.active || d.ota.pending) && d'.ota == ZEROED))
            && (c.FirmwareStatus? ==> reply.StatusReply? && d' == d)
  {
    hide Dispatch, Decode, ParseSha256;
    StatusIsTold(sha, d);
    var e := StepOf(Dispatch(cmd), env);
    if !e.Write? {
      CommandIsAStep(sha, d, cmd, env);
      StatusIsTold(sha, Execute(sha, d, Dispatch(cmd), env).0);
    }
    hide WriteSpec, CheckWrite;
  }

  // The status names the phase, the progress and, while there is one, the slot being updated.
  ghost predicate Tells(s: Status, d: Device) {
    && s.active == d.ota.active && s.pending == d.ota.pending
    && s.written == d.ota.written && s.expectedSize == d.ota.expectedSize
    && (s.active || s.pending ==>
          s.partition == Some(d.board.running.Other()) && s.partitionSize == SLOT_SIZE && s.hasSha)
    && (!s.active && !s.pending ==> s == Status(false, false, 0, 0, false, 0, None))
  }

  lemma StatusIsTold(sha: seq<byte> -> Digest, d: Device)
    requires Inv(sha, d)
    ensures Tells(StatusSpec(d.ota), d)
  {
  }

  // The answer to a write: accepted exactly when the update has grown, by the bytes it names.
  lemma {:induction false} WriteAnswer(sha: seq<byte> -> Digest, d: Device, cmd: string, env: Env)
    requires Inv(sha, d) && Dispatch(cmd).FirmwareWrite?
    ensures var (d', reply) := Execute(sha, d, Dispatch(cmd), env);
            && (reply.WriteReply? <==> d'.ota.written > d.ota.written)
            && (reply.WriteReply? ==>
                  && reply.written == d'.ota.written == Dispatch(cmd).offset + reply.received
                  && reply.expectedSize == d'.ota.expectedSize)
            && (!reply.WriteReply? ==> reply.ErrorReply? && d'.ota == d.ota)
  {
    var c := Dispatch(cmd);
    hide Dispatch, Inv, Decode, WellPadded, DecodedLength;
    ChunkBounds(sha, d, c.offset, c.data);
    RefusedHow(c.data, MAX_CHUNK_BYTES);
    WrittenFits(sha, d);
  }

  lemma WrittenFits(sha: seq<byte> -> Digest, d: Device)
    requires Inv(sha, d)
    ensures d.ota.active ==> d.ota.written <= d.ota.expectedSize <= SLOT_SIZE
  {
  }

  // A reboot is scheduled only for a finished update.
  lemma {:induction false} RebootAnswer(sha: seq<byte> -> Digest, d: Device, cmd: string, env: Env)
    requires Dispatch(cmd).FirmwareReboot?
    ensures var (d', reply) := Execute(sha, d, Dispatch(cmd), env);
            && d' == d && (reply == RebootReply <==> d.ota.pending && env.rebootTask)
            && (reply == ErrorReply(InvalidState) <==> !d.ota.pending)
            && (reply == ErrorReply(NoMemory) <==> d.ota.pending && !env.rebootTask)
  {
    hide Dispatch;
  }

  class Console {
    const framer: Framing.LineFramer
    const ota: OtaUpdater

    ghost predicate Valid()
      reads framer, framer.line
    {
      framer.Valid() && framer.overlong == Framing.Drop
    }

    // Nothing buffered and nothing queued.
    ghost predicate Idle()
      reads framer, framer.line
    {
      Valid() && framer.lineLen == 0 && framer.commands == [] && !framer.dropped
    }

    constructor (framer: Framing.LineFramer, ota: OtaUpdater)
      requires framer.Valid() && framer.overlong == Framing.Drop
      ensures this.framer == framer && this.ota == ota && Valid()
    {
      this.framer, this.ota := framer, ota;
    }

    // `gatt_access_cb`, write case.
    method OnGattWrite(data: string) returns (accepted: bool)
      requires Valid()
      modifies framer, framer.line
      ensures accepted <==> 0 < |data| <= MAX_GATT_WRITE
      ensures Valid() && framer.taken == old(framer.taken)
      ensures framer.seen == old(framer.seen) + if accepted then data else ""
      ensures !old(framer.dropped)
              && |old(framer.commands)| + |framer.emitted| - |old(framer.emitted)| <= Framing.QUEUE_DEPTH
              ==> !framer.dropped
    {
      if |data| == 0 || |data| > MAX_GATT_WRITE {
        assert framer.seen + "" == framer.seen;
        return false;
      }
      framer.FeedRxBytes(data);
      accepted := true;
    }

    method ProcessCommand(cmd: string, env: Env) returns (reply: Reply)
      modifies ota
      ensures (ota.State(), reply) == Execute(ota.sha, old(ota.State()), Dispatch(cmd), env)
    {
      hide Dispatch, BeginSpec, WriteSpec, EndSpec, CancelSpec;
      var c := ParseCommand(cmd);
      var err := EspOk;
      match c {
        case FirmwareBegin(_, size, hex) =>
          err := ota.Begin(size, hex, env.begin);
        case FirmwareWrite(_, offset, data) =>
          var received;
          err, received := ota.Write(offset, data, env.write);
          if err == EspOk {
            var s := ota.GetStatus();
            return WriteReply(received, s.written, s.expectedSize);
          }
        case FirmwareEnd(_) =>
          err := ota.End(env.end);
        case FirmwareCancel(_) =>
          err := ota.Cancel(env.cancel);
        case FirmwareStatus(_) =>
        case FirmwareReboot(_) =>
          var s := ota.GetStatus();
          if !s.pending {
            return ErrorReply(InvalidState);
          }
          return if env.rebootTask then RebootReply else ErrorReply(NoMemory);
        case _ =>
          return OtherReply;
      }
      if err != EspOk {
        return ErrorReply(err);
      }
      var status := ota.GetStatus();
      reply := StatusReply(status, MAX_BASE64_CHARS);
    }
  }

  /* ---- One request over BLE ---- */

  // While a line arrives the buffer holds its beginning and nothing is emitted.
  lemma {:induction false} FramePrefix(seen: string, line: string, k: nat)
    requires Framing.Frame(seen, Framing.Drop).pending == []
    requires OneLine(line) && line != [] && line[0] == '{' && |line| <= Framing.MAX_LINE && k <= |line|
    ensures Framing.Frame(seen + line[..k], Framing.Drop)
            == Framing.Scan(Framing.Frame(seen, Framing.Drop).lines, line[..k])
  {
    if k == 0 {
      assert seen + line[..0] == seen;
    } else {
      FramePrefix(seen, line, k - 1);
      Framing.FrameSnoc(seen + line[..k - 1], line[k - 1], Framing.Drop);
      FeedNext(line, k);
      hide Framing.Frame, Framing.Feed, OneLine;
      assert line[..k - 1] + [line[k - 1]] == line[..k];
      assert seen + line[..k - 1] + [line[k - 1]] == seen + line[..k];
      var lines := Framing.Frame(seen, Framing.Drop).lines;
      assert lines + [] == lines;
    }
  }

  lemma FeedNext(line: string, k: nat)
    requires OneLine(line) && 0 < k <= |line| <= Framing.MAX_LINE && line[0] == '{'
    ensures Framing.Feed(line[..k - 1], line[k - 1], Framing.Drop) == Framing.Scan([], line[..k])
  {
    assert line[..k - 1] + [line[k - 1]] == line[..k];
  }

  // How much of `line + "\n"` has to arrive before the line is emitted: all of it.
  lemma {:induction false} FrameLine(seen: string, line: string, k: nat)
    requires Framing.Frame(seen, Framing.Drop).pending == []
    requires OneLine(line) && line != [] && line[0] == '{' && |line| <= Framing.MAX_LINE && k <= |line| + 1
    ensures var before := Framing.Frame(seen, Framing.Drop).lines;
            Framing.Frame(seen + (line + "\n")[..k], Framing.Drop)
            == if k <= |line| then Framing.Scan(before, line[..k]) else Framing.Scan(before + [line], [])
  {
    if k <= |line| {
      FramePrefix(seen, line, k);
      assert (line + "\n")[..k] == line[..k];
    } else {
      FramePrefix(seen, line, |line|);
      Framing.FrameSnoc(seen + line, '\n', Framing.Drop);
      hide Framing.Frame;
      assert line[..|line|] == line && (line + "\n")[..k] == line + "\n";
      assert seen + line + ['\n'] == seen + (line + "\n");
    }
  }

  // The first `k` characters of `line` and its newline have arrived at an otherwise idle console.
  ghost predicate Arrived(console: Console, seen: string, lines: seq<string>, taken: seq<string>, line: string, k: nat)
    requires k <= |line| + 1
    reads console, console.framer, console.framer.line
  {
    var framer := console.framer;
    && console.Valid() && !framer.dropped && framer.taken == taken
    && framer.seen == seen + (line + "\n")[..k]
    && (k <= |line| ==> framer.emitted == lines && framer.commands == [])
  }

  // The request line and its newline, written in pieces of at most `writeSize` bytes.
  method SendLine(console: Console, line: string, writeSize: nat)
    requires console.Idle() && writeSize > 0
    requires OneLine(line) && line != [] && line[0] == '{' && |line| <= 1000
    modifies console.framer, console.framer.line
    ensures console.Valid() && console.framer.lineLen == 0 && !console.framer.dropped
    ensures console.framer.commands == [line]
  {
    ghost var seen, lines, taken := console.framer.seen, console.framer.emitted, console.framer.taken;
    var offset := 0;
    assert seen + (line + "\n")[..0] == seen;
    while offset < |line| + 1
      invariant offset <= |line| + 1 && Arrived(console, seen, lines, taken, line, offset)
    {
      var end := Min(offset + writeSize, |line| + 1);
      SendPiece(console, line, offset, end, seen, lines, taken);
      offset := end;
    }
    FrameLine(seen, line, offset);
    hide Framing.Frame, Framing.CStrings;
    OneQueued(taken, console.framer.commands, lines, line);
  }

  method SendPiece(console: Console, line: string, from: nat, end: nat,
                   ghost seen: string, ghost lines: seq<string>, ghost taken: seq<string>)
    requires from < end <= |line| + 1 <= MAX_GATT_WRITE && OneLine(line) && line != [] && line[0] == '{'
    requires Arrived(console, seen, lines, taken, line, from)
    requires Framing.Frame(seen, Framing.Drop) == Framing.Scan(lines, []) && taken == Framing.CStrings(lines)
    modifies console.framer, console.framer.line
    ensures Arrived(console, seen, lines, taken, line, end)
  {
    var piece := (line + "\n")[from..end];
    FrameLine(seen, line, end);
    hide Framing.Frame, Framing.CStrings, OneLine;
    var accepted := console.OnGattWrite(piece);
    assert seen + (line + "\n")[..from] + piece == seen + (line + "\n")[..end];
    NothingQueued(taken, console.framer.commands, lines);
  }

  // `BleRpcTransport.rpc` over a reliable link: the command the request completes is processed and
  // answered.
  method Rpc(console: Console, line: string, writeSize: nat, env: Env) returns (reply: Reply)
    requires console.Idle() && writeSize > 0
    requires OneLine(line) && line != [] && line[0] == '{' && |line| <= 1000
    modifies console.framer, console.framer.line, console.ota
    ensures console.Idle()
    ensures (console.ota.State(), reply)
            == Execute(console.ota.sha, old(console.ota.State()), Dispatch(line), env)
  {
    hide Execute, Dispatch, OneLine;
    SendLine(console, line, writeSize);
    var cmd := console.framer.TakeCommand();
    reply := console.ProcessCommand(cmd, env);
  }

  lemma NothingQueued(taken: seq<string>, commands: seq<string>, lines: seq<string>)
    requires taken == Framing.CStrings(lines)
    ensures taken + commands == Framing.CStrings(lines) ==> commands == []
  {
  }

  lemma OneQueued(taken: seq<string>, commands: seq<string>, lines: seq<string>, line: string)
    requires taken == Framing.CStrings(lines) && OneLine(line)
    requires taken + commands == Framing.CStrings(lines + [line])
    ensures commands == [line]
  {
    Framing.CStringsSnoc(lines, line);
    assert commands == (taken + commands)[|taken|..];
  }

  /* ---- The whole update ---- */

  // Chunks of `m` bytes from offset `from` have brought the update to `written` of `size`.
  ghost predicate Progress(from: nat, m: nat, size: nat, chunks: nat, written: nat) {
    written == Min(from + chunks * m, size) && from + chunks <= written && from + (chunks - 1) * m < size
  }

  lemma ProgressStart(from: nat, m: nat, size: nat)
    requires from < size && m > 0
    ensures Progress(from, m, size, 0, from)
  {
  }

  lemma ProgressNext(from: nat, m: nat, size: nat, chunks: nat, written: nat)
    requires Progress(from, m, size, chunks, written) && m > 0 && written < size
    ensures Progress(from, m, size, chunks + 1, Min(written + m, size))
  {
    Distribute(chunks, 1, m);
  }

  lemma ProgressDone(from: nat, m: nat, size: nat, chunks: nat)
    requires Progress(from, m, size, chunks, size) && m > 0
    ensures chunks == (size - from + m - 1) / m <= size
  {
    CeilingDivision(size - from, m, chunks);
  }

  lemma ProgressBounds(from: nat, m: nat, size: nat, chunks: nat, written: nat)
    requires Progress(from, m, size, chunks, written)
    ensures chunks <= written <= size
  {
  }

  lemma CeilingDivision(n: nat, m: nat, c: nat)
    requires m > 0 && (c - 1) * m < n <= c * m
    ensures c == (n + m - 1) / m
  {
    Distribute(c, -1, m);
    QuotientIs(n + m - 1, m, c);
  }

  // An update of `image` has got as far as `written`.
  ghost predicate Receiving(sha: seq<byte> -> Digest, d: Device, image: seq<byte>, written: int) {
    && Inv(sha, d) && d.ota.active && !d.board.stray && 0 <= written <= |image|
    && d.ota.expectedSize == |image| && d.ota.expectedSha == sha(image)
    && d.ota.written == written && d.ota.hashed == image[..written]
  }

  // What the calls of an update leave alone.
  ghost predicate SameRunning(b: Board, b': Board) {
    b'.running == b.running && b'.flash.At(b.running) == b.flash.At(b.running)
  }

  lemma BeginAccepted(sha: seq<byte> -> Digest, d: Device, image: seq<byte>, id: nat)
    requires Inv(sha, d) && !d.ota.active && !d.ota.pending && 0 < |image| <= SLOT_SIZE
    ensures var (d', reply) := Execute(sha, d, BeginRequest(|image|, sha(image)).Meaning(id), HEALTHY);
            && Receiving(sha, d', image, 0) && SameRunning(d.board, d'.board)
            && reply == StatusReply(StatusSpec(d'.ota), MAX_BASE64_CHARS)
  {
    ParsesExactly(Hex(sha(image)), sha(image));
    HexIsLower(sha(image));
    hide ParseSha256, Hex, Dec;
  }

  // A begin that comes at the wrong time or asks for too much changes nothing.
  lemma BeginRefused(sha: seq<byte> -> Digest, d: Device, image: seq<byte>, id: nat)
    requires d.ota.active || d.ota.pending || |image| > SLOT_SIZE
    requires 0 < |image| <= UINT32_MAX
    ensures var (d', reply) := Execute(sha, d, BeginRequest(|image|, sha(image)).Meaning(id), HEALTHY);
            d' == d && reply.ErrorReply?
  {
    ParsesExactly(Hex(sha(image)), sha(image));
    HexIsLower(sha(image));
    hide ParseSha256, Hex, Dec;
  }

  lemma ChunkAccepted(sha: seq<byte> -> Digest, d: Device, image: seq<byte>, written: int, end: int, id: nat)
    requires Receiving(sha, d, image, written) && written < end <= |image| && end - written <= MAX_CHUNK_BYTES
    ensures Sendable(WriteRequest(written, Encode(image[written..end])))
    ensures var (d', reply) := Execute(sha, d, WriteRequest(written, Encode(image[written..end])).Meaning(id), HEALTHY);
            && Receiving(sha, d', image, end) && SameRunning(d.board, d'.board)
            && reply == WriteReply(end - written, end, |image|)
  {
    hide Decode, Encode, Dec, CheckWrite, WriteSpec, Base64Text;
    var chunk := image[written..end];
    var data := Encode(chunk);
    EncodeIsBase64Text(chunk);
    DecodeEncode(chunk, MAX_CHUNK_BYTES);
    ChunkPasses(d.ota, written, data, chunk);
    WriteKeepsInv(sha, d, written, data, Stored);
    AcceptedWrite(d, written, data, Stored, chunk);
    assert d.ota.partition == Some(d.board.running.Other());
    assert image[..written] + chunk == image[..end];
    assert Receiving(sha, WriteSpec(d, written, data, Stored).0, image, end);
  }

  lemma ChunkPasses(ota: Ota, written: uint32, data: string, chunk: seq<byte>)
    requires ota.active && ota.written == written && 0 < |data| <= MAX_BASE64_CHARS
    requires Decode(data, MAX_CHUNK_BYTES) == Ok(chunk) && written + |chunk| <= ota.expectedSize
    ensures CheckWrite(ota, written, data) == Ok(chunk)
  {
    hide Decode;
  }

  lemma EndAccepted(sha: seq<byte> -> Digest, d: Device, image: seq<byte>, id: nat)
    requires Receiving(sha, d, image, |image|)
    ensures var (d', reply) := Execute(sha, d, EndRequest.Meaning(id), HEALTHY);
            && Inv(sha, d') && d'.ota.pending && SameRunning(d.board, d'.board)
            && d'.board.boot == d.board.running.Other() && d'.board.flash.At(d'.board.boot) == image
            && reply.StatusReply?
  {
    assert image[..|image|] == image;
    hide Dec;
  }

  // A finished update lets the device reboot.
  lemma RebootAccepted(sha: seq<byte> -> Digest, d: Device, id: nat)
    requires d.ota.pending
    ensures Execute(sha, d, RebootRequest.Meaning(id), HEALTHY) == (d, RebootReply)
  {
    hide Dec;
  }

  // `update_firmware` over a reliable link to a healthy device. It succeeds exactly for an image that
  // is not empty and fits a slot, on a device with no update under way or finished: the number of chunks
  // is exact, and the device is left with the image selected for its next start.
  method UpdateFirmware(console: Console, image: seq<byte>, chunkSize: nat, writeSize: nat, reboot: bool)
    returns (ok: bool, chunkCount: nat, rebooting: bool)
    requires console.Idle() && Inv(console.ota.sha, console.ota.State())
    requires |image| <= UINT32_MAX && chunkSize > 0 && writeSize > 0
    modifies console.framer, console.framer.line, console.ota
    ensures ok <==> 0 < |image| <= SLOT_SIZE && !old(console.ota.active) && !old(console.ota.pendingReboot)
    ensures console.Idle() && Inv(console.ota.sha, console.ota.State())
    ensures !ok ==> console.ota.State() == old(console.ota.State()) && !rebooting
    ensures ok ==> var maxRaw := Min(chunkSize, MAX_CHUNK_BYTES); chunkCount == (|image| + maxRaw - 1) / maxRaw
    ensures ok ==> var board := console.ota.board;
                   && console.ota.pendingReboot && SameRunning(old(console.ota.board), board)
                   && board.boot == board.running.Other() && board.flash.At(board.boot) == image
                   && rebooting == reboot
  {
    hide Execute, Receiving, SameRunning, Inv, Console.Idle;
    ghost var board := console.ota.board;
    ok, chunkCount, rebooting := false, 0, false;
    if |image| == 0 {
      return;
    }
    var maxBase64Chars, written;
    ok, maxBase64Chars, written := Begin(console, image, writeSize);
    if !ok || Min(chunkSize, maxBase64Chars / 4 * 3) <= 0 {
      return;
    }
    ghost var begun := console.ota.board;
    ok, chunkCount := SendChunks(console, image, Min(chunkSize, maxBase64Chars / 4 * 3), written, writeSize);
    if !ok {
      return;
    }
    SameRunningTwice(board, begun, console.ota.board);
    ghost var complete := console.ota.board;
    ok := Finish(console, image, chunkCount + 2, writeSize);
    SameRunningTwice(board, complete, console.ota.board);
    if ok && reboot {
      rebooting := Reboot(console, chunkCount + 3, writeSize);
    }
  }

  // `firmware.reboot`.
  method Reboot(console: Console, id: uint32, writeSize: nat) returns (rebooting: bool)
    requires console.Idle() && console.ota.pendingReboot && writeSize > 0
    modifies console.framer, console.framer.line, console.ota
    ensures rebooting && console.Idle() && console.ota.State() == old(console.ota.State())
  {
    RebootAccepted(console.ota.sha, console.ota.State(), id);
    hide Execute, Request.Meaning;
    var reply := Call(console, RebootRequest, id, writeSize);
    rebooting := reply.RebootReply?;
  }

  // `firmware.begin`, and what its answer tells the host.
  method Begin(console: Console, image: seq<byte>, writeSize: nat)
    returns (ok: bool, maxBase64Chars: nat, written: uint32)
    requires console.Idle() && Inv(console.ota.sha, console.ota.State()) && writeSize > 0
    requires 0 < |image| <= UINT32_MAX
    modifies console.framer, console.framer.line, console.ota
    ensures ok <==> |image| <= SLOT_SIZE && !old(console.ota.active) && !old(console.ota.pendingReboot)
    ensures console.Idle() && (!ok ==> console.ota.State() == old(console.ota.State()))
    ensures ok ==> maxBase64Chars == MAX_BASE64_CHARS && written == 0
    ensures ok ==> Receiving(console.ota.sha, console.ota.State(), image, written)
    ensures ok ==> SameRunning(old(console.ota.board), console.ota.board)
  {
    if |image| <= SLOT_SIZE && !console.ota.active && !console.ota.pendingReboot {
      BeginAccepted(console.ota.sha, console.ota.State(), image, 1);
    } else {
      BeginRefused(console.ota.sha, console.ota.State(), image, 1);
    }
    hide Execute, SameRunning, Request.Meaning, Inv, Receiving;
    ok, maxBase64Chars, written := false, 0, 0;
    var reply := Call(console, BeginRequest(|image|, console.ota.sha(image)), 1, writeSize);
    if !reply.StatusReply? {
      return;
    }
    ok, maxBase64Chars, written := true, reply.maxBase64Chars, reply.status.written;
  }

  // `firmware.end`.
  method Finish(console: Console, image: seq<byte>, id: uint32, writeSize: nat) returns (ok: bool)
    requires console.Idle() && Receiving(console.ota.sha, console.ota.State(), image, |image|) && writeSize > 0
    modifies console.framer, console.framer.line, console.ota
    ensures ok && console.Idle() && Inv(console.ota.sha, console.ota.State())
    ensures SameRunning(old(console.ota.board), console.ota.board)
    ensures var board := console.ota.board;
            console.ota.pendingReboot && board.boot == board.running.Other() && board.flash.At(board.boot) == image
  {
    EndAccepted(console.ota.sha, console.ota.State(), image, id);
    hide Execute, SameRunning, Request.Meaning, Inv, Receiving;
    var reply := Call(console, EndRequest, id, writeSize);
    ok := reply.StatusReply?;
  }

  // The loop of `update_firmware`, from whatever offset the device reports.
  method SendChunks(console: Console, image: seq<byte>, maxRaw: nat, from: uint32, writeSize: nat)
    returns (ok: bool, chunkCount: nat)
    requires console.Idle() && Receiving(console.ota.sha, console.ota.State(), image, from)
    requires from < |image| <= SLOT_SIZE && 0 < maxRaw <= MAX_CHUNK_BYTES && writeSize > 0
    modifies console.framer, console.framer.line, console.ota
    ensures ok && console.Idle() && Receiving(console.ota.sha, console.ota.State(), image, |image|)
    ensures chunkCount == (|image| - from + maxRaw - 1) / maxRaw <= SLOT_SIZE
    ensures SameRunning(old(console.ota.board), console.ota.board)
  {
    hide Execute, Receiving, SameRunning, Encode, Request.Meaning, Sendable, Progress, Console.Idle;
    var ota := console.ota;
    ghost var board := ota.board;
    var written := from;
    ok, chunkCount := false, 0;
    SameRunningRefl(board);
    ProgressStart(from, maxRaw, |image|);
    while written < |image|
      invariant Progress(from, maxRaw, |image|, chunkCount, written) && written <= |image|
      invariant console.Idle() && Receiving(ota.sha, ota.State(), image, written) && SameRunning(board, ota.board)
    {
      ProgressBounds(from, maxRaw, |image|, chunkCount, written);
      ProgressNext(from, maxRaw, |image|, chunkCount, written);
      var end := Min(written + maxRaw, |image|);
      ghost var before := ota.board;
      ok, written := SendChunk(console, image, written, end, chunkCount + 2, writeSize);
      if !ok {
        return;
      }
      SameRunningTwice(board, before, ota.board);
      chunkCount := chunkCount + 1;
    }
    ProgressDone(from, maxRaw, |image|, chunkCount);
    ok := true;
  }

  // One `firmware.write`, and the offset its answer reports.
  method SendChunk(console: Console, image: seq<byte>, from: uint32, end: uint32, id: uint32, writeSize: nat)
    returns (ok: bool, written: uint32)
    requires console.Idle() && Receiving(console.ota.sha, console.ota.State(), image, from) && writeSize > 0
    requires from < end <= |image| && end - from <= MAX_CHUNK_BYTES
    modifies console.framer, console.framer.line, console.ota
    ensures ok && written == end && console.Idle()
    ensures Receiving(console.ota.sha, console.ota.State(), image, end)
    ensures SameRunning(old(console.ota.board), console.ota.board)
  {
    ok, written := false, 0;
    ChunkAccepted(console.ota.sha, console.ota.State(), image, from, end, id);
    hide Execute, Receiving, SameRunning, Encode, Request.Meaning, Sendable;
    var reply := Call(console, WriteRequest(from, Encode(image[from..end])), id, writeSize);
    if !reply.WriteReply? {
      return;
    }
    ok, written := true, reply.written;
  }

  lemma SameRunningRefl(b: Board)
    ensures SameRunning(b, b)
  {
  }

  // After any history of lost, repeated, delayed and reordered requests for one image, with any failures
  // and resets in between, an active update can be resumed at the offset it reports, if and only if no
  // call since the slot was erased failed after touching flash: `SendChunks` completes it from there.
  lemma {:induction false} ResumeAfterFaults(sha: seq<byte> -> Digest, slot: Slot, flash: Flash, es: seq<Event>,
                                             image: seq<byte>)
    requires forall e :: e in es ==> CarriesSlice(image, e)
    requires forall e :: e in es && e.Begin? ==> e.size == |image| && e.hex == Hex(sha(image))
    ensures var d := Run(sha, Started(slot, flash), es);
            d.ota.active ==>
              (Receiving(sha, d, image, d.ota.written) <==> !StrayCall(sha, Started(slot, flash), es))
  {
    hide Run, Hex, ParseSha256, CarriesSlice;
    var d := Run(sha, Started(slot, flash), es);
    RunKeepsInv(sha, Started(slot, flash), es);
    StrayExactly(sha, Started(slot, flash), es);
    PrefixRun(sha, slot, flash, es, image);
    DeclaredRun(sha, slot, flash, es);
    ParsesExactly(Hex(sha(image)), sha(image));
    HexIsLower(sha(image));
    if d.ota.active {
      var i :| 0 <= i < |es| && es[i].Begin? && es[i].size == d.ota.expectedSize
               && ParseSha256(es[i].hex) == Some(d.ota.expectedSha);
      assert es[i] in es;
    }
  }

  lemma SameRunningTwice(b: Board, b': Board, b'': Board)
    requires SameRunning(b, b') && SameRunning(b', b'')
    ensures SameRunning(b, b'')
  {
  }

  // One request with the next id, to a healthy device.
  method Call(console: Console, request: Request, id: uint32, writeSize: nat) returns (reply: Reply)
    requires console.Idle() && writeSize > 0 && Sendable(request)
    modifies console.framer, console.framer.line, console.ota
    ensures console.Idle()
    ensures (console.ota.State(), reply)
            == Execute(console.ota.sha, old(console.ota.State()), request.Meaning(id), HEALTHY)
  {
    RequestFits(request, id);
    RequestRoundTrip(request, id);
    hide Execute, Dispatch, Request.Line, Request.Meaning;
    reply := Rpc(console, request.Line(id), writeSize, HEALTHY);
  }
}
