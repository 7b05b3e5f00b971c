/**
 The chunked firmware update: what each of the four calls does to the update state, to flash and to
 the boot selection, as a function on the whole device. The platform calls succeed or fail as the
 environment arguments say.
 */
module OtaUpdate {
  import opened Common
  import opened Base64
  import opened Sha256Hex

  const SLOT_SIZE := 0xE0000
  const MAX_BASE64_CHARS := 768
  const MAX_CHUNK_BYTES := MAX_BASE64_CHARS / 4 * 3

  datatype Slot = Ota0 | Ota1 {
    function Other(): Slot {
      if Ota0? then Ota1 else Ota0
    }
  }

  // What has been programmed into each application slot since it was last erased.
  datatype Flash = Flash(ota0: seq<byte>, ota1: seq<byte>) {
    function At(slot: Slot): seq<byte> {
      if slot.Ota0? then ota0 else ota1
    }

    function With(slot: Slot, content: seq<byte>): (f: Flash)
      ensures f.At(slot) == content && f.At(slot.Other()) == At(slot.Other())
    {
      if slot.Ota0? then Flash(content, ota1) else Flash(ota0, content)
    }
  }

  // The platform: the running slot, the boot selection and the flash. `stray` says that a failed
  // call left bytes in the slot being written that the update does not count.
  datatype Board = Board(running: Slot, boot: Slot, flash: Flash, stray: bool)

  // `s_ota`. `hashed` stands for the SHA-256 context: the bytes fed to it so far.
  datatype Ota = Ota(active: bool, pending: bool, partition: Option<Slot>, expectedSize: uint32,
                     written: uint32, hasSha: bool, expectedSha: Digest, hashed: seq<byte>)
  {
    function Target(): Slot {
      if partition.Some? then partition.value else Ota0
    }
  }

  const NO_DIGEST: Digest := [0, 0, 0, 0, 0, 0, 0, 0, 0, 0, 0, 0, 0, 0, 0, 0,
                              0, 0, 0, 0, 0, 0, 0, 0, 0, 0, 0, 0, 0, 0, 0, 0]
  const ZEROED := Ota(false, false, None, 0, 0, false, NO_DIGEST, [])

  datatype Device = Device(ota: Ota, board: Board)

  // Which platform calls succeed. That a failed flash write may leave a prefix of the data behind, and
  // that the hash update may fail, are assumptions about the platform: the model allows both so that
  // the theorems say exactly what they would cost, not because the calls are known to do it.
  datatype BeginEnv = BeginEnv(partitionFound: bool, otaBegin: bool, shaInit: bool)
  datatype WriteEnv = Stored | FlashError(stored: nat) | HashError
  datatype EndEnv = EndEnv(shaFinal: bool, otaEnd: bool, setBoot: bool)
  datatype CancelEnv = CancelEnv(runningFound: bool, setBoot: bool)

  datatype Status = Status(active: bool, pending: bool, expectedSize: uint32, written: uint32,
                           hasSha: bool, partitionSize: uint32, partition: Option<Slot>)

  /* ---- Specification of each call ---- */

  function BeginSpec(d: Device, size: uint32, hex: string, env: BeginEnv): (Device, EspErr) {
    if d.ota.active || d.ota.pending then (d, InvalidState)
    else if size == 0 then (d, InvalidSize)
    else if ParseSha256(hex).None? then (d, InvalidArg)
    else if !env.partitionFound then (d, NotFound)
    else if size > SLOT_SIZE then (d, InvalidSize)
    else if !env.otaBegin then (d, EspFail)
    else
      var slot := d.board.running.Other();
      var board := d.board.(flash := d.board.flash.With(slot, []), stray := false);
      if !env.shaInit then (Device(ZEROED, board), EspFail)
      else (Device(Ota(true, false, Some(slot), size, 0, true, ParseSha256(hex).value, []), board), EspOk)
  }

  // The checks a chunk passes before flash is touched.
  function CheckWrite(ota: Ota, offset: uint32, data: string): Result<seq<byte>> {
    if !ota.active then Err(InvalidState)
    else if offset != ota.written then Err(OtaProtocol)
    else if |data| == 0 || |data| > MAX_BASE64_CHARS then Err(InvalidSize)
    else match Decode(data, MAX_CHUNK_BYTES)
      case Err(e) => Err(e)
      case Ok(bytes) =>
        if (ota.written + |bytes|) % 0x1_0000_0000 > ota.expectedSize then Err(InvalidSize) else Ok(bytes)
  }

  function Append(board: Board, slot: Slot, bytes: seq<byte>): Board {
    board.(flash := board.flash.With(slot, board.flash.At(slot) + bytes))
  }

  function WriteSpec(d: Device, offset: uint32, data: string, env: WriteEnv): (Device, EspErr, uint32) {
    match CheckWrite(d.ota, offset, data)
    case Err(e) => (d, e, 0)
    case Ok(bytes) =>
      var slot := d.ota.Target();
      match env
      case FlashError(n) =>
        var kept := bytes[..Min(n, |bytes|)];
        (d.(board := Append(d.board, slot, kept).(stray := d.board.stray || kept != [])), EspFail, 0)
      case HashError =>
        (d.(board := Append(d.board, slot, bytes).(stray := d.board.stray || bytes != [])), EspFail, 0)
      case Stored =>
        var ota := d.ota.(written := (d.ota.written + |bytes|) % 0x1_0000_0000, hashed := d.ota.hashed + bytes);
        (Device(ota, Append(d.board, slot, bytes)), EspOk, |bytes| % 0x1_0000_0000)
  }

  function EndSpec(sha: seq<byte> -> Digest, d: Device, env: EndEnv): (Device, EspErr) {
    if !d.ota.active then (d, InvalidState)
    else if d.ota.written != d.ota.expectedSize then (d, InvalidSize)
    else if !env.shaFinal then (d.(ota := ZEROED), EspFail)
    else if sha(d.ota.hashed) != d.ota.expectedSha then (d.(ota := ZEROED), OtaChecksum)
    else if !env.otaEnd || !env.setBoot then (d.(ota := ZEROED), EspFail)
    else
      (Device(d.ota.(active := false, pending := true, hashed := []),
              d.board.(boot := d.ota.Target())), EspOk)
  }

  function CancelSpec(d: Device, env: CancelEnv): (Device, EspErr) {
    if d.ota.active then (d.(ota := ZEROED), EspOk)
    else if !d.ota.pending then (d, InvalidState)
    else if !env.runningFound then (d, NotFound)
    else if !env.setBoot then (d, EspFail)
    else (Device(ZEROED, d.board.(boot := d.board.running)), EspOk)
  }

  function StatusSpec(ota: Ota): Status {
    Status(ota.active, ota.pending, ota.expectedSize, ota.written, ota.hasSha,
           if ota.partition.Some? then SLOT_SIZE else 0, ota.partition)
  }
}
