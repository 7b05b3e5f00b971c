/** The update calls as the firmware runs them: `s_ota`'s fields, updated in place. */
module OtaDevice {
  import opened Common
  import opened Base64
  import opened Sha256Hex
  import opened OtaUpdate
  import OtaSafety

  class OtaUpdater {
    const sha: seq<byte> -> Digest
    var active: bool
    var pendingReboot: bool
    var partition: Option<Slot>
    var expectedSize: uint32
    var written: uint32
    var hasSha256: bool
    var expectedSha256: Digest
    var hashed: seq<byte>
    var board: Board

    function Fields(): Ota
      reads this
    {
      Ota(active, pendingReboot, partition, expectedSize, written, hasSha256, expectedSha256, hashed)
    }

    function State(): Device
      reads this
    {
      Device(Fields(), board)
    }

    // The crash-safety invariant.
    ghost predicate Safe()
      reads this
    {
      OtaSafety.Inv(sha, State())
    }

    // The slot the device runs from, and its content.
    function RunningImage(): (Slot, seq<byte>)
      reads this
    {
      (board.running, board.flash.At(board.running))
    }

    constructor (sha: seq<byte> -> Digest, board: Board)
      ensures State() == Device(ZEROED, board) && this.sha == sha
      ensures board.boot == board.running ==> Safe()
    {
      this.sha, this.board := sha, board;
      active, pendingReboot, partition, expectedSize, written := false, false, None, 0, 0;
      hasSha256, expectedSha256, hashed := false, NO_DIGEST, [];
    }

    method Clear()
      modifies this
      ensures State() == old(State()).(ota := ZEROED)
    {
      active, pendingReboot, partition, expectedSize, written := false, false, None, 0, 0;
      hasSha256, expectedSha256, hashed := false, NO_DIGEST, [];
    }

    method AbortActiveUpdate()
      modifies this
      ensures State() == old(State()).(ota := ZEROED)
    {
      // esp_ota_abort only gives the handle back: flash and boot selection stay as they are.
      Clear();
    }

    method Begin(size: uint32, hex: string, env: BeginEnv) returns (err: EspErr)
      modifies this
      ensures (State(), err) == BeginSpec(old(State()), size, hex, env)
      // Only an idle updater starts, for a size that fits and a readable digest.
      ensures err == EspOk <==>
                && !old(active) && !old(pendingReboot) && 0 < size <= 0xE0000 && ParseSha256(hex).Some?
                && env.partitionFound && env.otaBegin && env.shaInit
      ensures err == EspOk ==>
                && active && !pendingReboot && partition == Some(board.running.Other()) && expectedSize == size
                && written == 0 && hasSha256 && ParseSha256(hex) == Some(expectedSha256) && hashed == []
                && board.flash.At(board.running.Other()) == []
      ensures err == InvalidState <==> old(active) || old(pendingReboot)
      ensures err == InvalidArg <==> !old(active) && !old(pendingReboot) && size > 0 && ParseSha256(hex).None?
      ensures err !in {EspOk, EspFail} ==> State() == old(State())
      ensures err == EspFail ==> Fields() == (if env.otaBegin then ZEROED else old(Fields()))
      ensures board.boot == old(board.boot) && board.running == old(board.running)
      ensures old(Safe()) ==> Safe() && RunningImage() == old(RunningImage())
    {
      hide OtaSafety.Inv, Decode, ParseSha256;
      BeginKeepsSafe(sha, State(), size, hex, env);
      if active || pendingReboot {
        return InvalidState;
      }
      if size == 0 {
        return InvalidSize;
      }
      var digest := new byte[32];
      err := ParseSha256Into(hex, digest);
      if err != EspOk {
        return err;
      }
      if !env.partitionFound {
        return NotFound;
      }
      var sha256 := digest[..];
      var slot := board.running.Other();
      if size > SLOT_SIZE {
        return InvalidSize;
      }
      if !env.otaBegin {
        return EspFail;
      }
      board := board.(flash := board.flash.With(slot, []), stray := false);

      Clear();
      active := true;
      partition := Some(slot);
      expectedSize := size;
      hasSha256 := true;
      expectedSha256 := sha256;
      if !env.shaInit {
        AbortActiveUpdate();
        return EspFail;
      }
      err := EspOk;
    }

    method Write(offset: uint32, data: string, env: WriteEnv) returns (err: EspErr, decodedLen: uint32)
      modifies this
      ensures (State(), err, decodedLen) == WriteSpec(old(State()), offset, data, env)
      ensures err == InvalidState <==> !old(active)
      ensures err == OtaProtocol <==> old(active) && offset != old(written)
      // A refused chunk changes nothing; a failing platform call changes flash at most.
      ensures err !in {EspOk, EspFail} ==> State() == old(State()) && decodedLen == 0
      ensures err == EspFail ==> Fields() == old(Fields()) && decodedLen == 0 && !env.Stored?
      ensures old(Safe()) ==> Safe() && RunningImage() == old(RunningImage())
    {
      hide OtaSafety.Inv, Decode;
      WriteKeepsSafe(sha, State(), offset, data, env);
      decodedLen := 0;
      if !active {
        return InvalidState, 0;
      }
      if offset != written {
        return OtaProtocol, 0;
      }
      if |data| == 0 || |data| > MAX_BASE64_CHARS {
        return InvalidSize, 0;
      }

      var decoded := new byte[MAX_CHUNK_BYTES];
      var olen;
      err, olen := DecodeBase64(data, decoded);
      if err != EspOk {
        RefusedHow(data, MAX_CHUNK_BYTES);
        return err, 0;
      }
      if (written + olen) % 0x1_0000_0000 > expectedSize {
        return InvalidSize, 0;
      }

      var slot := Fields().Target();
      match env {
        case FlashError(n) =>
          var kept := decoded[..Min(n, olen)];
          assert decoded[..olen][..Min(n, olen)] == kept;
          board := Append(board, slot, kept).(stray := board.stray || |kept| > 0);
          return EspFail, 0;
        case HashError =>
          board := Append(board, slot, decoded[..olen]).(stray := board.stray || olen > 0);
          return EspFail, 0;
        case Stored =>
          board := Append(board, slot, decoded[..olen]);
      }
      hashed := hashed + decoded[..olen];
      written := (written + olen) % 0x1_0000_0000;
      decodedLen := olen % 0x1_0000_0000;
      err := EspOk;
    }

    method End(env: EndEnv) returns (err: EspErr)
      modifies this
      ensures (State(), err) == EndSpec(sha, old(State()), env)
      // The slot is selected only after size, digest, the platform's image check and its own selection.
      ensures err == EspOk <==>
                && old(active) && old(written) == old(expectedSize) && sha(old(hashed)) == old(expectedSha256)
                && env.shaFinal && env.otaEnd && env.setBoot
      ensures err == EspOk ==>
                && pendingReboot && !active && expectedSize == old(expectedSize)
                && expectedSha256 == old(expectedSha256) && board == old(board).(boot := old(Fields()).Target())
      ensures err != EspOk ==> board == old(board)
      ensures err == InvalidState <==> !old(active)
      ensures err == InvalidSize <==> old(active) && old(written) != old(expectedSize)
      ensures err == OtaChecksum <==>
                && old(active) && old(written) == old(expectedSize) && env.shaFinal
                && sha(old(hashed)) != old(expectedSha256)
      ensures err in {EspOk, InvalidState, InvalidSize, OtaChecksum, EspFail}
      ensures err in {InvalidState, InvalidSize} ==> Fields() == old(Fields())
      ensures err in {OtaChecksum, EspFail} ==> Fields() == ZEROED
      ensures old(Safe()) ==> Safe() && RunningImage() == old(RunningImage())
    {
      hide OtaSafety.Inv, Decode;
      EndKeepsSafe(sha, State(), env);
      if !active {
        return InvalidState;
      }
      if written != expectedSize {
        return InvalidSize;
      }
      if !env.shaFinal {
        AbortActiveUpdate();
        return EspFail;
      }
      var actual := sha(hashed);
      hashed := [];
      if actual != expectedSha256 {
        AbortActiveUpdate();
        return OtaChecksum;
      }
      if !env.otaEnd {
        AbortActiveUpdate();
        return EspFail;
      }
      if !env.setBoot {
        Clear();
        return EspFail;
      }
      board := board.(boot := Fields().Target());
      pendingReboot := true;
      active := false;
      err := EspOk;
    }

    method Cancel(env: CancelEnv) returns (err: EspErr)
      modifies this
      ensures (State(), err) == CancelSpec(old(State()), env)
      ensures err == EspOk <==> old(active) || (old(pendingReboot) && env.runningFound && env.setBoot)
      // An accepted cancel leaves an idle updater, and the running slot selected.
      ensures err == EspOk ==> Fields() == ZEROED && board.flash == old(board.flash)
      ensures err == EspOk && old(Safe()) ==> board.boot == board.running == old(board.running)
      ensures err != EspOk ==> State() == old(State())
      ensures err == InvalidState <==> !old(active) && !old(pendingReboot)
      ensures err == NotFound <==> !old(active) && old(pendingReboot) && !env.runningFound
      ensures err == EspFail <==> !old(active) && old(pendingReboot) && env.runningFound && !env.setBoot
      ensures old(Safe()) ==> Safe() && RunningImage() == old(RunningImage())
    {
      hide OtaSafety.Inv, Decode;
      CancelKeepsSafe(sha, State(), env);
      IdleOrSelected(sha, State());
      if active {
        AbortActiveUpdate();
        return EspOk;
      }
      if pendingReboot {
        if !env.runningFound {
          return NotFound;
        }
        if !env.setBoot {
          return EspFail;
        }
        board := board.(boot := board.running);
        Clear();
        return EspOk;
      }
      err := InvalidState;
    }

    method GetStatus() returns (status: Status)
      ensures status == StatusSpec(Fields())
      ensures status.active == active && status.pending == pendingReboot
      ensures status.expectedSize == expectedSize && status.written == written && status.hasSha == hasSha256
      ensures status.partition == partition
      // The slot being updated is reported with its size, and only while there is one.
      ensures Safe() ==>
                if active || pendingReboot
                then status.partition == Some(board.running.Other()) && status.partitionSize == SLOT_SIZE
                else status == Status(false, false, 0, 0, false, 0, None)
    {
      status := Status(active, pendingReboot, expectedSize, written, hasSha256, 0, None);
      if partition.Some? {
        status := status.(partitionSize := SLOT_SIZE, partition := partition);
      }
    }
  }

  // The invariant is kept and the running slot is left alone.
  ghost predicate KeepsSafe(sha: seq<byte> -> Digest, d: Device, d': Device) {
    OtaSafety.Inv(sha, d) ==>
      && OtaSafety.Inv(sha, d') && d'.board.running == d.board.running
      && d'.board.flash.At(d.board.running) == d.board.flash.At(d.board.running)
  }

  lemma StepKeepsSafe(sha: seq<byte> -> Digest, d: Device, e: OtaSafety.Event)
    requires !e.Reset?
    ensures KeepsSafe(sha, d, OtaSafety.Step(sha, d, e))
  {
    hide OtaSafety.Inv, OtaSafety.Step;
    if OtaSafety.Inv(sha, d) {
      OtaSafety.StepKeepsInv(sha, d, e);
      OtaSafety.StepLeavesRunning(sha, d, e);
    }
  }

  // While an update is active the running slot is still the selected one.
  lemma IdleOrSelected(sha: seq<byte> -> Digest, d: Device)
    ensures OtaSafety.Inv(sha, d) && d.ota.active ==> d.board.boot == d.board.running
  {
  }

  lemma BeginKeepsSafe(sha: seq<byte> -> Digest, d: Device, size: uint32, hex: string, env: BeginEnv)
    ensures KeepsSafe(sha, d, BeginSpec(d, size, hex, env).0)
  {
    hide KeepsSafe, BeginSpec;
    StepKeepsSafe(sha, d, OtaSafety.Begin(size, hex, env));
  }

  lemma WriteKeepsSafe(sha: seq<byte> -> Digest, d: Device, offset: uint32, data: string, env: WriteEnv)
    ensures KeepsSafe(sha, d, WriteSpec(d, offset, data, env).0)
  {
    hide KeepsSafe, WriteSpec;
    StepKeepsSafe(sha, d, OtaSafety.Write(offset, data, env));
  }

  lemma EndKeepsSafe(sha: seq<byte> -> Digest, d: Device, env: EndEnv)
    ensures KeepsSafe(sha, d, EndSpec(sha, d, env).0)
  {
    hide KeepsSafe, EndSpec;
    StepKeepsSafe(sha, d, OtaSafety.End(env));
  }

  lemma CancelKeepsSafe(sha: seq<byte> -> Digest, d: Device, env: CancelEnv)
    ensures KeepsSafe(sha, d, CancelSpec(d, env).0)
  {
    hide KeepsSafe, CancelSpec;
    StepKeepsSafe(sha, d, OtaSafety.Cancel(env));
  }
}
