/**
 What every run of the update machine keeps: any calls in any order, any platform call failing, and a
 reset at any point. A reset in the middle of a call is that call failing, followed by `Reset`.
 */
module OtaSafety {
  import opened Common
  import opened Base64
  import opened Sha256Hex
  import opened OtaUpdate

  datatype Event =
    | Begin(size: uint32, hex: string, beginEnv: BeginEnv)
    | Write(offset: uint32, data: string, writeEnv: WriteEnv)
    | End(endEnv: EndEnv)
    | Cancel(cancelEnv: CancelEnv)
    | QueryStatus
    | Reset

  function Step(sha: seq<byte> -> Digest, d: Device, e: Event): Device {
    match e
    case Begin(size, hex, env) => BeginSpec(d, size, hex, env).0
    case Write(offset, data, env) => WriteSpec(d, offset, data, env).0
    case End(env) => EndSpec(sha, d, env).0
    case Cancel(env) => CancelSpec(d, env).0
    case QueryStatus => d
    // RAM is cleared and the selected slot starts running.
    case Reset => Device(ZEROED, d.board.(running := d.board.boot))
  }

  function Run(sha: seq<byte> -> Digest, d: Device, es: seq<Event>): Device {
    if es == [] then d else Step(sha, Run(sha, d, es[..|es| - 1]), es[|es| - 1])
  }

  // A device that has just started from `slot`.
  function Started(slot: Slot, flash: Flash): Device {
    Device(ZEROED, Board(slot, slot, flash, false))
  }

  /* ---- The invariant ---- */

  ghost predicate Inv(sha: seq<byte> -> Digest, d: Device) {
    var o, b, image := d.ota, d.board, d.board.flash.At(d.ota.Target());
    && !(o.active && o.pending)
    && (!o.active && !o.pending ==> o == ZEROED)
    && (o.active || o.pending ==> o.partition == Some(b.running.Other()) && o.hasSha)
    && (o.active || o.pending ==> o.written <= o.expectedSize <= SLOT_SIZE && o.expectedSize > 0)
    && (o.active ==> |o.hashed| == o.written)
    && (o.active ==> if b.stray then |image| > o.written else image == o.hashed)
    && (o.pending ==> o.written == o.expectedSize)
    && (o.pending ==> if b.stray then |image| > o.expectedSize
                      else |image| == o.expectedSize && sha(image) == o.expectedSha)
    && b.boot == (if o.pending then b.running.Other() else b.running)
  }

  // A chunk that passes the checks is never empty, fits the decoding buffer, and never makes the
  // 32-bit sum `written + olen` wrap; the decoder's buffer-full error cannot happen here.
  lemma {:induction false} ChunkBounds(sha: seq<byte> -> Digest, d: Device, offset: uint32, data: string)
    requires Inv(sha, d)
    ensures CheckWrite(d.ota, offset, data).Ok? ==>
              && 1 <= |CheckWrite(d.ota, offset, data).value| <= MAX_CHUNK_BYTES
              && d.ota.written + |CheckWrite(d.ota, offset, data).value| <= d.ota.expectedSize
    ensures CheckWrite(d.ota, offset, data).Ok? <==>
              && d.ota.active && offset == d.ota.written
              && |data| <= MAX_BASE64_CHARS && WellPadded(data)
              && d.ota.written + DecodedLength(data) <= d.ota.expectedSize
    ensures d.ota.active && |data| <= MAX_BASE64_CHARS ==> Decode(data, MAX_CHUNK_BYTES) != Err(InvalidSize)
  {
    AcceptsExactly(data, MAX_CHUNK_BYTES);
    if |data| <= MAX_BASE64_CHARS {
      assert DecodedLength(data) <= MAX_CHUNK_BYTES;
      NeverFull(data, MAX_CHUNK_BYTES);
    }
  }

  // Why a chunk at the expected offset is refused: bad text, or a size out of bounds.
  lemma {:induction false} ChunkRefusals(sha: seq<byte> -> Digest, d: Device, offset: uint32, data: string)
    requires Inv(sha, d)
    ensures CheckWrite(d.ota, offset, data) == Err(InvalidArg) <==>
              && d.ota.active && offset == d.ota.written
              && 0 < |data| <= 768 && !WellPadded(data)
    ensures CheckWrite(d.ota, offset, data) == Err(InvalidSize) <==>
              && d.ota.active && offset == d.ota.written
              && (|data| == 0 || |data| > 768
                  || (WellPadded(data) && d.ota.written + DecodedLength(data) > d.ota.expectedSize))
  {
    hide Inv, Decode;
    ChunkBounds(sha, d, offset, data);
    AcceptsExactly(data, MAX_CHUNK_BYTES);
    RefusedHow(data, MAX_CHUNK_BYTES);
    if WellPadded(data) && |data| <= MAX_BASE64_CHARS {
      assert DecodedLength(data) <= MAX_CHUNK_BYTES;
    }
    hide WellPadded, DecodedLength;
  }

  lemma {:induction false} NeverFull(data: string, room: nat)
    requires |data| % 4 == 0 ==> |data| / 4 * 3 <= room
    ensures Decode(data, room) != Err(InvalidSize)
  {
    if data != [] && |data| % 4 == 0 {
      QuadsNeverFull(data, room);
    }
  }

  lemma {:induction false} QuadsNeverFull(s: string, room: nat)
    requires |s| % 4 == 0 && |s| / 4 * 3 <= room
    ensures Quads(s, room) != Err(InvalidSize)
    decreases |s|
  {
    hide Value, Unpack;
    if s != [] && Quad(s[..4], |s| == 4).Some? {
      var n := |Quad(s[..4], |s| == 4).value|;
      assert |s[4..]| == |s| - 4;
      QuadsNeverFull(s[4..], room - n);
    }
  }

  lemma {:induction false} StepKeepsInv(sha: seq<byte> -> Digest, d: Device, e: Event)
    requires Inv(sha, d)
    ensures Inv(sha, Step(sha, d, e))
  {
    hide Decode, ParseSha256;
    if e.Write? {
      WriteKeepsInv(sha, d, e.offset, e.data, e.writeEnv);
    } else {
      hide CheckWrite, WriteSpec;
    }
  }

  lemma WriteKeepsInv(sha: seq<byte> -> Digest, d: Device, offset: uint32, data: string, env: WriteEnv)
    requires Inv(sha, d)
    ensures Inv(sha, WriteSpec(d, offset, data, env).0)
  {
    hide Decode, DecodedLength, WellPadded;
    ChunkBounds(sha, d, offset, data);
    hide CheckWrite;
  }

  lemma {:induction false} RunKeepsInv(sha: seq<byte> -> Digest, d: Device, es: seq<Event>)
    requires Inv(sha, d)
    ensures Inv(sha, Run(sha, d, es))
  {
    if es != [] {
      RunKeepsInv(sha, d, es[..|es| - 1]);
      StepKeepsInv(sha, Run(sha, d, es[..|es| - 1]), es[|es| - 1]);
    }
  }

  /* ---- What calls leave alone ---- */

  // No call ever writes to the slot the device runs from.
  lemma StepLeavesRunning(sha: seq<byte> -> Digest, d: Device, e: Event)
    requires Inv(sha, d) && !e.Reset?
    ensures Step(sha, d, e).board.running == d.board.running
    ensures Step(sha, d, e).board.flash.At(d.board.running) == d.board.flash.At(d.board.running)
  {
    hide Decode, ParseSha256;
  }

  lemma {:induction false} RunningSlotUntouched(sha: seq<byte> -> Digest, d: Device, es: seq<Event>)
    requires Inv(sha, d) && Reset !in es
    ensures Run(sha, d, es).board.running == d.board.running
    ensures Run(sha, d, es).board.flash.At(d.board.running) == d.board.flash.At(d.board.running)
  {
    if es != [] {
      var before := es[..|es| - 1];
      RunKeepsInv(sha, d, before);
      RunningSlotUntouched(sha, d, before);
      assert es[|es| - 1] in es;
      StepLeavesRunning(sha, Run(sha, d, before), es[|es| - 1]);
      hide Step, Inv;
    }
  }

  // A finished update is frozen: until a cancel or a reset, no call changes anything at all.
  lemma {:induction false} PendingIsFrozen(sha: seq<byte> -> Digest, d: Device, es: seq<Event>)
    requires Inv(sha, d) && d.ota.pending
    requires forall e :: e in es ==> !e.Cancel? && !e.Reset?
    ensures Run(sha, d, es) == d
  {
    if es != [] {
      PendingIsFrozen(sha, d, es[..|es| - 1]);
      assert es[|es| - 1] in es;
    }
  }

  /* ---- What ends an update ---- */

  // An update becomes a finished one exactly when it is complete, its digest matches, and hash, image
  // check and boot selection all succeed; any other end of a complete update drops it, and an end that
  // comes too early changes nothing.
  lemma EndDecides(sha: seq<byte> -> Digest, d: Device, env: EndEnv)
    requires Inv(sha, d)
    ensures var d', o := Step(sha, d, End(env)), d.ota;
            var complete := o.active && o.written == o.expectedSize;
            var passed := sha(o.hashed) == o.expectedSha && env.shaFinal && env.otaEnd && env.setBoot;
            && (d'.ota.pending && !o.pending <==> complete && passed)
            && (complete && passed ==>
                  && d'.board == d.board.(boot := d.board.running.Other())
                  && d'.ota == o.(active := false, pending := true, hashed := []))
            && (!(complete && passed) ==> d' == Device(if complete then ZEROED else o, d.board))
  {
  }

  // A cancel of an active update always works, that of a finished one when the running slot can be
  // selected again: both leave an idle device that starts what it runs. A refused one changes nothing.
  lemma CancelDecides(sha: seq<byte> -> Digest, d: Device, env: CancelEnv)
    requires Inv(sha, d)
    ensures Step(sha, d, Cancel(env))
            == if d.ota.active || (d.ota.pending && env.runningFound && env.setBoot)
               then Device(ZEROED, d.board.(boot := d.board.running))
               else d
  {
  }

  // In every run an accepted cancel makes room for the next update.
  lemma {:induction false} CancelAllowsBegin(sha: seq<byte> -> Digest, slot: Slot, flash: Flash, es: seq<Event>,
                                             cancel: CancelEnv, size: uint32, hex: string)
    requires var o := Run(sha, Started(slot, flash), es).ota;
             o.active || (o.pending && cancel.runningFound && cancel.setBoot)
    requires 0 < size <= SLOT_SIZE && ParseSha256(hex).Some?
    ensures var d := Run(sha, Started(slot, flash), es);
            var begin := Begin(size, hex, BeginEnv(true, true, true));
            var d' := Run(sha, Started(slot, flash), es + [Cancel(cancel), begin]);
            && d'.ota.active && !d'.ota.pending && d'.ota.expectedSize == size && d'.ota.written == 0
            && Some(d'.ota.expectedSha) == ParseSha256(hex)
            && d'.board.running == d'.board.boot == d.board.running
            && d'.board.flash == d.board.flash.With(d.board.running.Other(), [])
  {
    var start, c, b := Started(slot, flash), Cancel(cancel), Begin(size, hex, BeginEnv(true, true, true));
    RunKeepsInv(sha, start, es);
    CancelDecides(sha, Run(sha, start, es), cancel);
    assert (es + [c, b])[..|es| + 1] == es + [c] && (es + [c])[..|es|] == es;
    hide Inv, ParseSha256;
    assert Run(sha, start, es + [c]) == Step(sha, Run(sha, start, es), c);
  }

  // An End call at position `i` passed every check, and nothing has changed since.
  ghost predicate FinishedAt(sha: seq<byte> -> Digest, d: Device, es: seq<Event>, i: nat) {
    && i < |es| && es[i] == End(EndEnv(true, true, true))
    && Run(sha, d, es[..i]).ota.active
    && Run(sha, d, es[..i]).ota.written == Run(sha, d, es[..i]).ota.expectedSize
    && sha(Run(sha, d, es[..i]).ota.hashed) == Run(sha, d, es[..i]).ota.expectedSha
    && Run(sha, d, es[..i + 1]) == Run(sha, d, es)
  }

  // In every run, while a reboot is pending, some End call found the update complete with the declared
  // digest, and the platform accepted the image and the selection; the device is as that call left it.
  lemma {:induction false} PendingWasChecked(sha: seq<byte> -> Digest, slot: Slot, flash: Flash, es: seq<Event>)
    ensures Run(sha, Started(slot, flash), es).ota.pending ==>
              exists i: nat :: FinishedAt(sha, Started(slot, flash), es, i)
  {
    if es != [] {
      var start, n := Started(slot, flash), |es| - 1;
      var before, e := es[..n], es[n];
      var d := Run(sha, start, before);
      RunKeepsInv(sha, start, before);
      PendingWasChecked(sha, slot, flash, before);
      assert es[..n + 1] == es;
      if Run(sha, start, es).ota.pending {
        PendingStep(sha, d, e);
        if d.ota.pending {
          var i: nat :| FinishedAt(sha, start, before, i);
          assert es[..i] == before[..i] && es[..i + 1] == before[..i + 1] && es[i] == before[i];
          assert FinishedAt(sha, start, es, i);
        } else {
          assert FinishedAt(sha, start, es, n);
        }
      }
    }
  }

  lemma PendingStep(sha: seq<byte> -> Digest, d: Device, e: Event)
    requires Inv(sha, d) && Step(sha, d, e).ota.pending
    ensures if d.ota.pending then Step(sha, d, e) == d
            else && e == End(EndEnv(true, true, true)) && d.ota.active && d.ota.written == d.ota.expectedSize
                 && sha(d.ota.hashed) == d.ota.expectedSha
  {
    hide Decode, ParseSha256;
  }

  // The start after a finished update runs the slot that was written, with an idle updater; any other
  // start runs the same slot again.
  lemma {:induction false} ResetStartsSelected(sha: seq<byte> -> Digest, slot: Slot, flash: Flash, es: seq<Event>)
    ensures var d, d' := Run(sha, Started(slot, flash), es), Run(sha, Started(slot, flash), es + [Reset]);
            && d'.ota == ZEROED && d'.board.flash == d.board.flash && d'.board.boot == d'.board.running
            && d'.board.running == (if d.ota.pending then d.board.running.Other() else d.board.running)
  {
    RunKeepsInv(sha, Started(slot, flash), es);
    assert (es + [Reset])[..|es|] == es;
  }

  /* ---- Crash safety over all runs, and when flash agrees with what was hashed ---- */

  // A failed call that leaves bytes in flash which `written` and the hash do not count.
  ghost predicate LeavesStray(d: Device, e: Event) {
    e.Write? && CheckWrite(d.ota, e.offset, e.data).Ok?
    && (e.writeEnv.HashError? || (e.writeEnv.FlashError? && e.writeEnv.stored > 0))
  }

  // A begin that gets as far as erasing the slot.
  ghost predicate Erases(d: Device, e: Event) {
    e.Begin? && BeginSpec(d, e.size, e.hex, e.beginEnv.(shaInit := true)).1 == EspOk
  }

  // Such a call has happened, and the slot has not been erased since.
  ghost predicate StrayCall(sha: seq<byte> -> Digest, d: Device, es: seq<Event>) {
    exists i :: 0 <= i < |es| && LeavesStray(Run(sha, d, es[..i]), es[i])
                && forall j :: i < j < |es| ==> !Erases(Run(sha, d, es[..j]), es[j])
  }

  // In every run the boot selection leaves the running slot exactly while a finished update waits for
  // its reboot. The slot it then names holds the declared number of bytes with the declared digest if
  // and only if no call since that slot was erased failed after touching flash.
  lemma {:induction false} CrashSafety(sha: seq<byte> -> Digest, slot: Slot, flash: Flash, es: seq<Event>)
    ensures var d := Run(sha, Started(slot, flash), es);
            var image := d.board.flash.At(d.board.boot);
            && (d.board.boot != d.board.running <==> d.ota.pending)
            && !(d.ota.active && d.ota.pending)
            && d.ota.written <= d.ota.expectedSize <= SLOT_SIZE
            && (d.ota.pending ==>
                  (|image| == d.ota.expectedSize && sha(image) == d.ota.expectedSha
                   <==> !StrayCall(sha, Started(slot, flash), es)))
  {
    RunKeepsInv(sha, Started(slot, flash), es);
    StrayExactly(sha, Started(slot, flash), es);
  }

  // While an update is active, flash holds exactly the bytes fed to the hash under the same condition.
  lemma {:induction false} FlashAgreesExactly(sha: seq<byte> -> Digest, slot: Slot, flash: Flash, es: seq<Event>)
    ensures var d := Run(sha, Started(slot, flash), es);
            d.ota.active ==>
              (d.board.flash.At(d.ota.Target()) == d.ota.hashed <==> !StrayCall(sha, Started(slot, flash), es))
  {
    RunKeepsInv(sha, Started(slot, flash), es);
    StrayExactly(sha, Started(slot, flash), es);
  }

  lemma {:induction false} StrayExactly(sha: seq<byte> -> Digest, d: Device, es: seq<Event>)
    requires Inv(sha, d) && !d.board.stray
    ensures Run(sha, d, es).board.stray <==> StrayCall(sha, d, es)
  {
    if es != [] {
      var n := |es| - 1;
      var before := es[..n];
      StrayExactly(sha, d, before);
      RunKeepsInv(sha, d, before);
      StrayStep(sha, Run(sha, d, before), es[n]);
      StrayCallStep(sha, d, before, es[n]);
      assert before + [es[n]] == es;
    }
  }

  lemma StrayCallStep(sha: seq<byte> -> Digest, d: Device, before: seq<Event>, e: Event)
    ensures StrayCall(sha, d, before + [e])
            <==> LeavesStray(Run(sha, d, before), e) || (StrayCall(sha, d, before) && !Erases(Run(sha, d, before), e))
  {
    hide LeavesStray, Erases, Run;
    var es, n := before + [e], |before|;
    assert es[..n] == before && es[n] == e;
    if LeavesStray(Run(sha, d, before), e) {
      assert LeavesStray(Run(sha, d, es[..n]), es[n]);
    } else if StrayCall(sha, d, before) && !Erases(Run(sha, d, before), e) {
      var i :| 0 <= i < n && LeavesStray(Run(sha, d, before[..i]), before[i])
               && forall j :: i < j < n ==> !Erases(Run(sha, d, before[..j]), before[j]);
      StrayCallExtends(sha, d, before, e, i);
    } else if StrayCall(sha, d, es) {
      var i :| 0 <= i < |es| && LeavesStray(Run(sha, d, es[..i]), es[i])
               && forall j :: i < j < |es| ==> !Erases(Run(sha, d, es[..j]), es[j]);
      StrayCallShrinks(sha, d, before, e, i);
    }
  }

  lemma StrayCallExtends(sha: seq<byte> -> Digest, d: Device, before: seq<Event>, e: Event, i: nat)
    requires i < |before| && LeavesStray(Run(sha, d, before[..i]), before[i])
    requires forall j :: i < j < |before| ==> !Erases(Run(sha, d, before[..j]), before[j])
    requires !Erases(Run(sha, d, before), e)
    ensures StrayCall(sha, d, before + [e])
  {
    hide LeavesStray, Erases, Run;
    var es := before + [e];
    assert es[..i] == before[..i] && LeavesStray(Run(sha, d, es[..i]), es[i]);
    forall j | i < j < |es| ensures !Erases(Run(sha, d, es[..j]), es[j]) {
      assert es[..j] == if j < |before| then before[..j] else before;
    }
  }

  lemma StrayCallShrinks(sha: seq<byte> -> Digest, d: Device, before: seq<Event>, e: Event, i: nat)
    requires var es := before + [e];
             && i < |before| && LeavesStray(Run(sha, d, es[..i]), es[i])
             && forall j :: i < j < |es| ==> !Erases(Run(sha, d, es[..j]), es[j])
    ensures StrayCall(sha, d, before) && !Erases(Run(sha, d, before), e)
  {
    hide LeavesStray, Erases, Run;
    var es := before + [e];
    assert es[..|before|] == before && es[|before|] == e;
    assert !Erases(Run(sha, d, es[..|before|]), es[|before|]);
    assert es[..i] == before[..i] && LeavesStray(Run(sha, d, before[..i]), before[i]);
    forall j | i < j < |before| ensures !Erases(Run(sha, d, before[..j]), before[j]) {
      assert es[..j] == before[..j];
      assert !Erases(Run(sha, d, es[..j]), es[j]);
    }
  }

  lemma StrayStep(sha: seq<byte> -> Digest, d: Device, e: Event)
    requires Inv(sha, d)
    ensures Step(sha, d, e).board.stray <==> LeavesStray(d, e) || (d.board.stray && !Erases(d, e))
  {
    hide Decode, ParseSha256, DecodedLength, WellPadded;
    if e.Write? {
      ChunkBounds(sha, d, e.offset, e.data);
    }
  }

  /* ---- Whatever boots was delivered whole ---- */

  // Whenever an update is finished, no call since its slot was erased failed after touching flash.
  ghost predicate FinishedClean(sha: seq<byte> -> Digest, d: Device, es: seq<Event>) {
    forall k :: 0 <= k <= |es| && Run(sha, d, es[..k]).ota.pending ==> !StrayCall(sha, d, es[..k])
  }

  // Some begin call declared this image's size and digest.
  ghost predicate Declared(sha: seq<byte> -> Digest, es: seq<Event>, size: int, digest: Digest) {
    exists i :: 0 <= i < |es| && es[i].Begin? && es[i].size == size && ParseSha256(es[i].hex) == Some(digest)
  }

  ghost predicate Trusted(sha: seq<byte> -> Digest, es: seq<Event>, factory: seq<byte>, image: seq<byte>) {
    image == factory || Declared(sha, es, |image|, sha(image))
  }

  // Wherever power fails, the slot the device starts from next holds either the image it started
  // with originally or one whose size and digest some begin call declared.
  lemma {:induction false} BootsOnlyTrustedImages(sha: seq<byte> -> Digest, slot: Slot, flash: Flash, es: seq<Event>)
    requires FinishedClean(sha, Started(slot, flash), es)
    ensures var d := Run(sha, Started(slot, flash), es);
            && Trusted(sha, es, flash.At(slot), d.board.flash.At(d.board.boot))
            && Trusted(sha, es, flash.At(slot), d.board.flash.At(d.board.running))
  {
    if es != [] {
      var before, e := es[..|es| - 1], es[|es| - 1];
      CleanBefore(sha, Started(slot, flash), es);
      BootsOnlyTrustedImages(sha, slot, flash, before);
      RunKeepsInv(sha, Started(slot, flash), before);
      var d := Run(sha, Started(slot, flash), before);
      var running, boot := d.board.flash.At(d.board.running), d.board.flash.At(d.board.boot);
      DeclaredGrows(sha, before, e, |running|, sha(running));
      DeclaredGrows(sha, before, e, |boot|, sha(boot));
      assert before + [e] == es;
      FinishedIsDeclared(sha, slot, flash, es);
      hide Declared, StrayCall, FinishedClean;
      TrustedStep(sha, d, e, es);
      NextStart(sha, d, e);
    }
  }

  lemma CleanBefore(sha: seq<byte> -> Digest, d: Device, es: seq<Event>)
    requires es != [] && FinishedClean(sha, d, es)
    ensures FinishedClean(sha, d, es[..|es| - 1])
    ensures Run(sha, d, es).ota.pending ==> !StrayCall(sha, d, es)
  {
    hide Run, StrayCall;
    var before := es[..|es| - 1];
    assert es[..|es|] == es;
    forall k | 0 <= k <= |before| && Run(sha, d, before[..k]).ota.pending ensures !StrayCall(sha, d, before[..k]) {
      assert before[..k] == es[..k];
    }
  }

  // A finished update holds what a begin call declared; otherwise the running slot stays selected.
  lemma FinishedIsDeclared(sha: seq<byte> -> Digest, slot: Slot, flash: Flash, es: seq<Event>)
    requires Run(sha, Started(slot, flash), es).ota.pending ==> !StrayCall(sha, Started(slot, flash), es)
    ensures var d := Run(sha, Started(slot, flash), es);
            var image := d.board.flash.At(d.board.boot);
            if d.ota.pending then Declared(sha, es, |image|, sha(image)) else d.board.boot == d.board.running
  {
    hide Declared, StrayCall, Run;
    CrashSafety(sha, slot, flash, es);
    DeclaredRun(sha, slot, flash, es);
  }

  // A start runs what was selected, and nothing else changes the running slot.
  lemma NextStart(sha: seq<byte> -> Digest, d: Device, e: Event)
    requires Inv(sha, d)
    ensures e.Reset? ==> Step(sha, d, e).board == d.board.(running := d.board.boot)
  {
  }

  // The size and digest an update is held to come from a begin call.
  lemma {:induction false} DeclaredRun(sha: seq<byte> -> Digest, slot: Slot, flash: Flash, es: seq<Event>)
    ensures var d := Run(sha, Started(slot, flash), es);
            d.ota.active || d.ota.pending ==> Declared(sha, es, d.ota.expectedSize, d.ota.expectedSha)
  {
    if es != [] {
      var before, e := es[..|es| - 1], es[|es| - 1];
      var d := Run(sha, Started(slot, flash), before);
      RunKeepsInv(sha, Started(slot, flash), before);
      DeclaredRun(sha, slot, flash, before);
      DeclaredGrows(sha, before, e, d.ota.expectedSize, d.ota.expectedSha);
      assert before + [e] == es;
      TrustedStep(sha, d, e, es);
    }
  }

  lemma DeclaredGrows(sha: seq<byte> -> Digest, before: seq<Event>, e: Event, size: int, digest: Digest)
    ensures Declared(sha, before, size, digest) ==> Declared(sha, before + [e], size, digest)
  {
    if Declared(sha, before, size, digest) {
      var i :| 0 <= i < |before| && before[i].Begin? && before[i].size == size
               && ParseSha256(before[i].hex) == Some(digest);
      assert (before + [e])[i] == before[i];
    }
  }

  lemma TrustedStep(sha: seq<byte> -> Digest, d: Device, e: Event, es: seq<Event>)
    requires Inv(sha, d) && es != [] && es[|es| - 1] == e
    ensures var d' := Step(sha, d, e);
            && (d'.ota.active && !d.ota.active ==> Declared(sha, es, d'.ota.expectedSize, d'.ota.expectedSha))
            && (d'.ota.pending || (d'.ota.active && d.ota.active) ==>
                 (d'.ota.expectedSize == d.ota.expectedSize && d'.ota.expectedSha == d.ota.expectedSha))
            && d'.board.flash.At(d.board.running) == d.board.flash.At(d.board.running)
            && d'.board.running == (if e.Reset? then d.board.boot else d.board.running)
            && (d.ota.pending ==> d'.board.flash == d.board.flash)
  {
    hide Decode;
  }

  /* ---- Fault-tolerant transfer ---- */

  // A write request that, if it decodes at all, carries a slice of `image` at its own offset.
  ghost predicate CarriesSlice(image: seq<byte>, e: Event) {
    e.Write? && Decode(e.data, MAX_CHUNK_BYTES).Ok? ==>
      var bytes := Decode(e.data, MAX_CHUNK_BYTES).value;
      e.offset + |bytes| <= |image| && bytes == image[e.offset..e.offset + |bytes|]
  }

  // Every write request the updater makes for a chunk of the image is one.
  lemma UpdaterCarriesSlices(image: seq<byte>, from: uint32, end: nat, env: WriteEnv)
    requires from < end <= |image| && end - from <= MAX_CHUNK_BYTES
    ensures CarriesSlice(image, Write(from, Encode(image[from..end]), env))
  {
    DecodeEncode(image[from..end], MAX_CHUNK_BYTES);
  }

  // However requests are lost, repeated, delayed or reordered, and whatever failures, begins, cancels,
  // status queries and resets come between them: flash is a prefix of the image, and a finished update
  // holds the whole of what was declared, if and only if no call since the slot was erased failed after
  // touching flash. Nothing is assumed about `sha`.
  lemma {:induction false} TransferIsFaithful(sha: seq<byte> -> Digest, slot: Slot, flash: Flash, es: seq<Event>,
                                              image: seq<byte>)
    requires forall e :: e in es ==> CarriesSlice(image, e)
    ensures var d := Run(sha, Started(slot, flash), es);
            var clean := !StrayCall(sha, Started(slot, flash), es);
            && (d.ota.active ==> d.ota.written <= |image|
                                 && (d.board.flash.At(d.ota.Target()) == image[..d.ota.written] <==> clean))
            && (d.ota.pending ==> d.ota.expectedSize <= |image|
                                  && (d.board.flash.At(d.board.boot) == image[..d.ota.expectedSize] <==> clean))
            && (d.ota.pending && d.ota.expectedSize == |image| ==> (d.board.flash.At(d.board.boot) == image <==> clean))
  {
    RunKeepsInv(sha, Started(slot, flash), es);
    StrayExactly(sha, Started(slot, flash), es);
    PrefixRun(sha, slot, flash, es, image);
    assert image[..|image|] == image;
  }

  // What has been hashed is a prefix of the image, and so is a finished slot without stray bytes.
  ghost predicate Prefix(d: Device, image: seq<byte>) {
    && (d.ota.active ==> d.ota.written <= |image| && d.ota.hashed == image[..d.ota.written])
    && (d.ota.pending ==> d.ota.expectedSize <= |image|
                          && (!d.board.stray ==> d.board.flash.At(d.board.boot) == image[..d.ota.expectedSize]))
  }

  lemma {:induction false} PrefixRun(sha: seq<byte> -> Digest, slot: Slot, flash: Flash, es: seq<Event>,
                                     image: seq<byte>)
    requires forall e :: e in es ==> CarriesSlice(image, e)
    ensures Prefix(Run(sha, Started(slot, flash), es), image)
  {
    hide CarriesSlice, Step;
    if es != [] {
      var before, e := es[..|es| - 1], es[|es| - 1];
      PrefixRun(sha, slot, flash, before, image);
      RunKeepsInv(sha, Started(slot, flash), before);
      assert e in es;
      PrefixStep(sha, Run(sha, Started(slot, flash), before), e, image);
    }
  }

  lemma PrefixStep(sha: seq<byte> -> Digest, d: Device, e: Event, image: seq<byte>)
    requires Inv(sha, d) && Prefix(d, image) && CarriesSlice(image, e)
    ensures Prefix(Step(sha, d, e), image)
  {
    hide Decode, ParseSha256;
    if e.Write? {
      PrefixWrite(sha, d, e, image);
    }
  }

  lemma PrefixWrite(sha: seq<byte> -> Digest, d: Device, e: Event, image: seq<byte>)
    requires Inv(sha, d) && e.Write? && Prefix(d, image) && CarriesSlice(image, e)
    ensures Prefix(Step(sha, d, e), image)
  {
    ChunkBounds(sha, d, e.offset, e.data);
    hide Decode, DecodedLength, WellPadded;
    var checked := CheckWrite(d.ota, e.offset, e.data);
    if checked.Ok? {
      assert checked == Decode(e.data, MAX_CHUNK_BYTES) && d.ota.written == e.offset;
      assert image[..e.offset] + checked.value == image[..e.offset + |checked.value|];
      if e.writeEnv.Stored? {
        AcceptedWrite(d, e.offset, e.data, e.writeEnv, checked.value);
      }
    }
  }

  // What an accepted chunk does when its failures are clean: everything, or nothing.
  lemma AcceptedWrite(d: Device, offset: uint32, data: string, env: WriteEnv, bytes: seq<byte>)
    requires CheckWrite(d.ota, offset, data) == Ok(bytes)
    requires 0 < |bytes| && d.ota.written + |bytes| <= d.ota.expectedSize
    requires !env.HashError? && (env.FlashError? ==> env.stored == 0)
    ensures WriteSpec(d, offset, data, env)
            == if env.Stored? then
                 (Device(d.ota.(written := d.ota.written + |bytes|, hashed := d.ota.hashed + bytes),
                         Append(d.board, d.ota.Target(), bytes)), EspOk, |bytes|)
               else
                 (d, EspFail, 0)
  {
    hide CheckWrite;
    if env.FlashError? {
      var slot := d.ota.Target();
      assert bytes[..Min(env.stored, |bytes|)] == [];
      assert d.board.flash.At(slot) + [] == d.board.flash.At(slot);
    }
  }

  // The assumption on failures is needed: after one failed hash update the host's retry succeeds, the
  // digest matches, and the device selects a slot that does not hold the image.
  lemma {:induction false} LostHashUpdateBootsWrongImage(sha: seq<byte> -> Digest, flash: Flash, image: seq<byte>)
    requires image == [7]
    ensures var hex, chunk := Hex(sha(image)), Encode(image);
            var d := Run(sha, Started(Ota0, flash),
                         [Begin(1, hex, BeginEnv(true, true, true)), Write(0, chunk, HashError),
                          Write(0, chunk, Stored), End(EndEnv(true, true, true))]);
            && CarriesSlice(image, Write(0, chunk, HashError)) && CarriesSlice(image, Write(0, chunk, Stored))
            && d.ota.pending && d.board.boot == Ota1
            && d.board.flash.At(Ota1) == [7, 7]
  {
    var hex, chunk := Hex(sha(image)), Encode(image);
    DecodeEncode(image, MAX_CHUNK_BYTES);
    ParsesExactly(hex, sha(image));
    HexIsLower(sha(image));
    hide Decode, Encode, ParseSha256, Hex;
    assert image[0..1] == image;
    var e0, e1 := Begin(1, hex, BeginEnv(true, true, true)), Write(0, chunk, HashError);
    var e2, e3 := Write(0, chunk, Stored), End(EndEnv(true, true, true));
    var d1 := OneByteBegin(flash, hex, sha(image));
    var d3 := OneByteWrites(d1, image, chunk);
    OneByteEnd(sha, d3, image);
    hide Run, BeginSpec, WriteSpec, EndSpec;
    FourSteps(sha, Started(Ota0, flash), e0, e1, e2, e3);
  }

  lemma OneByteBegin(flash: Flash, hex: string, digest: Digest) returns (d: Device)
    requires ParseSha256(hex) == Some(digest)
    ensures d == Device(Ota(true, false, Some(Ota1), 1, 0, true, digest, []),
                        Board(Ota0, Ota0, flash.With(Ota1, []), false))
    ensures d == BeginSpec(Started(Ota0, flash), 1, hex, BeginEnv(true, true, true)).0
  {
    hide ParseSha256;
    d := BeginSpec(Started(Ota0, flash), 1, hex, BeginEnv(true, true, true)).0;
  }

  lemma OneByteWrites(d: Device, image: seq<byte>, chunk: string) returns (d': Device)
    requires image == [7] && |chunk| == 4 && Decode(chunk, MAX_CHUNK_BYTES) == Ok(image)
    requires d.ota.active && d.ota.partition == Some(Ota1) && d.ota.written == 0 && d.ota.expectedSize == 1
    requires d.ota.hashed == [] && d.board.flash.At(Ota1) == []
    ensures d' == WriteSpec(WriteSpec(d, 0, chunk, HashError).0, 0, chunk, Stored).0
    ensures d'.ota == d.ota.(written := 1, hashed := image) && d'.board.flash.At(Ota1) == [7, 7]
  {
    hide Decode;
    assert [] + image == image && image + image == [7, 7];
    assert CheckWrite(d.ota, 0, chunk) == Ok(image);
    d' := WriteSpec(WriteSpec(d, 0, chunk, HashError).0, 0, chunk, Stored).0;
  }

  lemma OneByteEnd(sha: seq<byte> -> Digest, d: Device, image: seq<byte>)
    requires d.ota.active && d.ota.expectedSize == d.ota.written == 1
    requires d.ota.hashed == image && d.ota.expectedSha == sha(image)
    ensures var d' := EndSpec(sha, d, EndEnv(true, true, true)).0;
            d'.ota.pending && d'.board.boot == d.ota.Target() && d'.board.flash == d.board.flash
  {
  }

  lemma FourSteps(sha: seq<byte> -> Digest, d: Device, e0: Event, e1: Event, e2: Event, e3: Event)
    ensures Run(sha, d, [e0, e1, e2, e3]) == Step(sha, Step(sha, Step(sha, Step(sha, d, e0), e1), e2), e3)
  {
    hide Step;
    var es := [e0, e1, e2, e3];
    assert es[..3] == [e0, e1, e2] && [e0, e1, e2][..2] == [e0, e1] && [e0, e1][..1] == [e0] && [e0][..0] == [];
    assert Run(sha, d, []) == d;
    assert Run(sha, d, [e0]) == Step(sha, d, e0);
    assert Run(sha, d, [e0, e1]) == Step(sha, Run(sha, d, [e0]), e1);
    assert Run(sha, d, [e0, e1, e2]) == Step(sha, Run(sha, d, [e0, e1]), e2);
  }

  lemma {:induction false} HexIsLower(bytes: seq<byte>)
    ensures Lower(Hex(bytes)) == Hex(bytes)
  {
    if bytes != [] {
      HexIsLower(bytes[1..]);
      var s := Hex(bytes);
      assert s[1..][1..] == Hex(bytes[1..]);
    }
  }
}
