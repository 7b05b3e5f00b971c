# Verified model of the MEB Commander firmware

MEB Commander is ESP32-C5 firmware that preheats a vehicle battery over CAN and is updated over UART or
BLE. This project models its hardest parts in Dafny 4.11 and proves what they promise.
`dafny verify dfyconfig.toml` checks everything.

| file | part of the system |
|---|---|
| `Common.dfy`, `Arithmetic.dfy` | machine integers, C strings, error codes; products and quotients |
| `Base64.dfy`, `Sha256Hex.dfy` | the update protocol's base64 decoder and digest text |
| `OtaUpdate.dfy` | what `begin`, `write`, `end`, `cancel` do to the update state, the two flash slots and the boot selection |
| `OtaSafety.dfy` | what every run of those calls keeps, with failing platform calls and resets anywhere |
| `OtaDevice.dfy` | the calls themselves, on the fields of the update state |
| `JsonText.dfy`, `JsonScalars.dfy`, `Commands.dfy` | the flat JSON readers and the command dispatch |
| `Requests.dfy` | the requests of the console protocol as JSON text, and how the readers recover them |
| `Framing.dfy` | cutting the incoming bytes into command lines (BLE and UART) |
| `Notify.dfy` | slicing messages into BLE notifications, and reassembly on the host |
| `HostUpdate.dfy` | the console and the host's update loop, end to end |
| `BitField.dfy`, `Heating.dfy` | CAN bit-fields; the shared heating state |
| `HeatingRuns.dfy` | whole runs of commands, CAN messages and the control loop |
| `HeatingConsole.dfy` | the heating commands, from their text to the state and the answer |
| `TxSlots.dfy` | the CAN transmit slot pool under interleaved senders, driver and interrupt |
| `Diagnostics.dfy`, `JsonEscape.dfy` | the event ring and the bounded JSON escaper |

## How it is modelled

- Each stateful part is a class with the source's fields, whose methods are proved equal to a pure
  specification function on the whole state. Runs are sequences of events over those functions; the
  theorems quantify over every sequence.
- Loops and fixed buffers stay loops over arrays. A C pointer into a text is an index; the
  specifications speak of the text from that index on. A C character is a `char`, a byte an integer
  below 256. Shifts and masks on disjoint bits are written with `*`, `/`, `%` and `+`.
- 32-bit arithmetic that can wrap is reduced modulo 2^32 where the source does it.
- SHA-256 (FIPS 180-4) is an arbitrary function of the bytes fed in; no theorem assumes it is free of
  collisions. The hash context is the sequence of bytes fed so far.
- Every `esp_ota_*` call succeeds or fails as the environment says. A failed flash write may leave any
  prefix of its data behind. A failed set-boot changes nothing, and the update slot is the one not
  running. A reset in the middle of a call is that call failing, followed by a reset. The error code a
  failing platform call returns is `EspFail` in the model, whichever it is.
- Critical sections are atomic. A clock that is read before the lock is taken is a separate `stamp`, not
  later than the time `at` which the section runs.
- The driver answers each accepted CAN frame with one done callback and keeps no refused frame.

## Results worth knowing

- *Order of flash write and hash update.* `meb_ota_update_write` programs flash before it updates the
  hash and `written`. The model lets two platform calls fail in ways the source does not rule out and
  does not show either: a failed flash write may leave bytes that the next write appends to, and the hash
  update may fail. These are assumptions about the platform, not defects the source is known to reach.
  Under them a retry would put a chunk in flash twice while hash and size still match: `CrashSafety`,
  `FlashAgreesExactly`, `TransferIsFaithful` and `ResumeAfterFaults` hold for every run if and only if no
  such call (`StrayCall`) happened since the slot was erased, and on a platform where neither happens they
  hold outright. `LostHashUpdateBootsWrongImage` is a run of the model, with a failing hash update, that
  ends with the wrong image selected.
- *Remaining minutes.* The countdown is cast to 32 bits. `CastExactly` gives the exact condition under
  which nothing is lost; `CountdownFits` shows it holds for every stamp not older than the last command.
  For an older stamp it can fail: `StaleStampWraps` shows a snapshot that reports 0 minutes left although
  heating stays on (safety limit configured off, timer 2^32 - 1 minutes, clock read before the command).
- *Overlong lines.* The BLE console drops a line that outgrows its buffer; the UART console processes the
  first 1023 characters as a command. `ConsolesAgreeExactly` proves that the two emit the same lines if
  and only if no line is overlong.
- *Escaped events.* The firmware's own string reader inverts the escaper exactly on texts without control
  characters that fit its buffer (`FirmwareReadsBackExactly`); a standard JSON reader inverts it always.
- *Session recovery.* `HeatFollowsSession` gives the one case in which a heat request follows a negative
  response with no session request in between: the control task had already taken the error flag, and
  decided on the heat request, when the response came.

## Model

| member | source | states |
|---|---|---|
| Base64.DecodeBase64 | main/ota_update.c:87-139 | for every text and buffer size, the in-place loops store exactly the specified bytes or report the specified error |
| Base64.DecodeEncode | main/ota_update.c:95-138 | decoding inverts the encoding of RFC 4648 section 4 on every non-empty byte sequence that fits |
| Base64.AcceptsExactly | main/ota_update.c:89-134 | accepted if and only if well padded over the alphabet and the bytes fit; the length is 3n/4 minus padding; too small a buffer is the only other failure of a well-padded text |
| Base64.EncodeDecode | main/ota_update.c:120-134 | re-encoding gives the text back if and only if the unused trailing bits are zero (RFC 4648 section 3.5) |
| Sha256Hex.ParseSha256Into | main/ota_update.c:49-65 | the loop over digit pairs fills the 32 bytes or reports an invalid argument, as specified |
| Sha256Hex.ParsesExactly | main/ota_update.c:35-65 | a text is read as digest d if and only if, lower-cased, it is the hexadecimal form of d |
| OtaDevice.OtaUpdater.Begin | main/ota_update.c:149-190 | started if and only if the updater is idle, the size is 1 to the slot size, the digest readable and every platform call succeeds; each refusal has its own error and leaves everything as it was; the running image is never touched and the crash-safety invariant kept |
| OtaDevice.OtaUpdater.Write | main/ota_update.c:192-233 | a chunk is decoded into a 576-byte buffer, programmed into flash, then hashed, then counted, stopping at the first failure; a refused chunk changes nothing, a failing platform call changes flash at most, and a wrong phase or offset has its own error |
| OtaDevice.OtaUpdater.End | main/ota_update.c:235-271 | succeeds, and selects the written slot, if and only if the update is complete, its digest matches, and hash, image check and selection all succeed; a failing check clears the update and leaves flash and selection alone; an end that comes too early changes nothing; each case has its error |
| OtaDevice.OtaUpdater.Cancel | main/ota_update.c:273-291 | succeeds if and only if an update is active, or finished with the running slot selectable; it then leaves an idle updater with the running slot selected and flash as it was; otherwise nothing changes, and the error says why |
| OtaDevice.OtaUpdater.AbortActiveUpdate | main/ota_update.c:141-147 | all update fields are cleared, flash and boot selection stay |
| OtaDevice.OtaUpdater.GetStatus | main/ota_update.c:293-310 | the status reports the fields; on a safe device it names the slot being updated with its size during and after an update, and is all zero otherwise |
| OtaSafety.ChunkBounds | main/ota_update.c:197-217 | a chunk passes the checks if and only if it is at the expected offset, at most 768 characters, well padded and within the declared size; the 32-bit sum never wraps and the decoder never runs out of room |
| OtaSafety.ChunkRefusals | main/ota_update.c:204-217 | at the expected offset a chunk is refused as malformed if and only if its text is not well padded, and for its size if and only if it is empty, over 768 characters or beyond the declared size |
| OtaSafety.StepKeepsInv | main/ota_update.c:141-291 | every call with any failures, and a reset, keeps the update invariant |
| OtaSafety.RunKeepsInv | main/ota_update.c:141-291 | so does every run |
| OtaSafety.EndDecides | main/ota_update.c:235-271 | on every safe device an end makes a finished update if and only if all six conditions hold; a complete update that fails any is dropped, with the board unchanged; an incomplete one stays as it was |
| OtaSafety.CancelDecides | main/ota_update.c:273-291 | on every safe device an accepted cancel leaves an idle device that starts what it runs, and a refused one changes nothing |
| OtaSafety.CancelAllowsBegin | main/ota_update.c:149-190 | after every run ending in an accepted cancel, the next valid begin is accepted, for the size and digest it declares |
| OtaSafety.PendingWasChecked | main/ota_update.c:235-271 | in every run, while a reboot is pending, some end call found the update complete with the declared digest and the platform accepted image and selection, and the device is exactly as that call left it |
| OtaSafety.ResetStartsSelected | main/ota_update.c:261-268 | after every run, a restart begins with an idle updater, in the slot just written if a reboot was pending and in the same slot otherwise |
| OtaSafety.CrashSafety | main/ota_update.c:149-291 | in every run the boot selection leaves the running slot exactly while a reboot is pending; active and pending exclude each other; written, declared and slot size are ordered; the selected slot has the declared size and digest if and only if no call since its erase failed after touching flash |
| OtaSafety.RunningSlotUntouched | main/ota_update.c:161-177 | no sequence of calls ever writes to the slot the device runs from |
| OtaSafety.DeclaredRun | main/ota_update.c:175-181 | the size and digest an update is held to always come from a begin call |
| OtaSafety.PendingIsFrozen | main/ota_update.c:151-153 | a finished update is not changed at all by anything but a cancel or a reset |
| OtaSafety.FlashAgreesExactly | main/ota_update.c:219-227 | flash holds the hashed bytes if and only if no call since the erase failed after touching flash |
| OtaSafety.LostHashUpdateBootsWrongImage | main/ota_update.c:219-227 | a concrete run of the model that selects a wrong image after one hash update failed, should the platform let it fail |
| OtaSafety.BootsOnlyTrustedImages | main/ota_update.c:235-271 | if no update was ever finished on a slot a call had failed on after touching flash: wherever power fails, the next start is from the original image or one whose size and digest a begin call declared |
| OtaSafety.UpdaterCarriesSlices | scripts/meb_ota_update.py:229-237 | the updater's write requests carry slices of the image at their own offset |
| OtaSafety.TransferIsFaithful | main/ota_update.c:192-271 | under loss, repetition, delay and reordering of such requests, with any failures, begins, cancels and resets in between, flash is a prefix of the image and a finished update the whole of it, if and only if no call since the erase failed after touching flash; no collision resistance is assumed |
| JsonText.SkipWs | main/serial_console.c:47-54 | the pointer stops at the first character that is not a blank, tab, carriage return or line feed, and passes only those |
| JsonText.FindKeyValue | main/serial_console.c:61-80 | the `strstr` loop returns the place the specified search names, or nothing |
| JsonText.ParseStringValue | main/serial_console.c:82-112 | the buffer holds the specified text, terminated inside it, or the value is refused |
| JsonScalars.ParseUintValue | main/serial_console.c:139-161 | accepted if and only if the whole digit run denotes at most 2^32 - 1 and a delimiter follows; the division guard rejects exactly the overflowing runs |
| JsonScalars.ParseUintExactly | main/serial_console.c:139-161 | a value reads as n if and only if its leading digits denote n and the text ends there, or a comma, closing bracket or white space follows |
| JsonScalars.ParseUintDec | main/serial_console.c:139-161 | the decimal form of every 32-bit number is read back, whatever delimiter follows |
| JsonScalars.ReadStringId | main/serial_console.c:175-195 | a quoted id is copied verbatim up to its closing quote, or refused |
| JsonScalars.ReadPlainId | main/serial_console.c:197-210 | a number or null is copied verbatim up to the end of the text, a comma, a closing brace or white space, or refused |
| JsonScalars.IdTokenDec | main/serial_console.c:197-210 | a numeric id is echoed digit for digit |
| JsonEscape.StringIdIsEchoed | main/serial_console.c:175-195 | every string id with standard escapes is echoed verbatim if and only if it fits the buffer |
| JsonScalars.ParseBoolExactly | main/serial_console.c:114-137 | a value reads as a boolean if and only if it is that literal and the text ends there, or a comma, closing bracket or white space follows |
| Commands.ReadBool | main/serial_console.c:114-137 | on index and buffer, exactly the boolean specified above is read |
| Commands.ReadLimit | main/serial_console.c:410-431 | the default without a limit, the number given, or a refusal |
| Commands.RefusedExactly | main/serial_console.c:827-844 | a text is ignored, refused for its id, or refused as a request, each if and only if: no object; an unreadable id; no JSON-RPC 2.0 version or no readable method |
| Commands.IdIsEchoed | main/serial_console.c:163-210 | a request without an id has id null and counts as a notification; otherwise the echoed id is a text of at most 63 characters its value starts with |
| Commands.UnknownExactly | main/serial_console.c:846-880 | a call is refused as unknown if and only if its method is none of the sixteen |
| Commands.BadParamsExactly | main/serial_console.c:353-431 | a call is refused for its parameters if and only if one its method needs is missing or malformed, method by method |
| Commands.NoParamsNoValue | main/serial_console.c:356-358 | without an object-valued `params` no parameter is found |
| Commands.ParametersAreRead | main/serial_console.c:846-880 | whatever is understood is the method the text names, with the values its parameters hold, or the documented default limits 8 and 5 |
| Commands.HandleMethod | main/serial_console.c:846-880 | each method name leads to its handler with its parameters read from `params` |
| Commands.ParseCommand | main/serial_console.c:820-881 | a command line is understood as the specified dispatch says, error cases included |
| Requests.SearchFindsFirstKey | main/serial_console.c:70-77 | on compact JSON the flat search finds exactly the first string that is the key in key position; equal values and longer strings do not mislead it |
| Requests.RequestRoundTrip | main/serial_console.c:820-880 | every request of the protocol, for all sixteen methods and with or without an optional limit, is dispatched with exactly its id, method and parameters |
| Requests.RequestFits | scripts/meb_ota_update.py:119-127 | every request is one line beginning with a brace and fits the 1024-byte buffers |
| Framing.LineFramer.PushByte | main/ble_console.c:162-179 | one turn of the loop on the fixed buffer is one step of the specified framer: carriage return and line feed complete the buffered line, a brace starts one, and the 1024th character of a line drops it, on the UART console after processing it |
| Framing.LineFramer.FeedRxBytes | main/ble_console.c:159-181 | after any fragments, buffer and emitted lines are a function of the concatenated bytes; commands are those lines as C strings, and none is dropped while the queue has room |
| Framing.LineFramer.Emit | main/ble_console.c:144-157 | a line is queued, or dropped exactly when the BLE queue is full |
| Framing.FrameSnoc | main/ble_console.c:161-180 | the per-byte loop computes the per-segment specification |
| Framing.LineEndsAlike | main/ble_console.c:162-167 | carriage return, line feed and both together end a line alike, anywhere in a stream |
| Framing.LinesAreClean | main/ble_console.c:161-180 | every line of every stream begins with a brace, has at most 1023 characters and holds no line end |
| Framing.FramesSegments | main/serial_console.c:893-912 | without an overlong line, the lines are each segment's text from its first brace on, on either console |
| Framing.ConsolesAgreeExactly | main/serial_console.c:893-912 | BLE and UART emit the same lines if and only if no line is overlong; otherwise UART emits more |
| Notify.SendMessage | main/ble_console.c:429-459 | for any MTU at each step, the notifications are non-empty, fill the limit except the last, and concatenate to the message, or to a prefix of it when one fails |
| Notify.Reassembler.OnNotify | scripts/meb_ota_update.py:142-149 | buffer and lines are those of the whole byte stream, however it was cut; the texts handed on are those lines stripped, blank ones skipped |
| Notify.StripExactly | scripts/meb_ota_update.py:147 | stripping a line loses the six white-space characters at its ends and nothing else, up to its first and last other characters |
| Notify.Deliver | main/ble_console.c:429-459 | one message cut into notifications for any MTU at each step and put together again: the host has received exactly its first characters, and all of them unless a notification failed |
| Notify.DeliverAll | scripts/meb_ota_update.py:142-149 | any messages over any link: the host's lines and leftover are exactly those of the whole and cut messages, and without failures the texts handed on are the messages, in order |
| Notify.ReassemblyIsExact | scripts/meb_ota_update.py:142-149 | for any pattern of failures, each whole message gives one line: the fragments stuck since the last whole one, then its text |
| Notify.AllDelivered | main/ble_console.c:429-459 | without failures the lines are the messages |
| Notify.OneFailureLosesTwo | main/ble_console.c:449-456 | a failure part-way through a message loses at most that one and the next; everything else is exact |
| HostUpdate.Console.OnGattWrite | main/ble_console.c:189-207 | a write of 1 to 1024 bytes is fed to the framer, any other is refused |
| HostUpdate.Console.ProcessCommand | main/serial_console.c:708-818 | the device changes and answers as the specified call for the understood command |
| HostUpdate.CommandIsAStep | main/serial_console.c:820-881 | any command text makes a step of the update machine, so its run theorems hold for every sequence of lines |
| HostUpdate.AnswersTellTheOutcome | main/serial_console.c:708-800 | begin, end and cancel are answered with a status if and only if they did their work, and the status describes the device they left |
| HostUpdate.WriteAnswer | main/serial_console.c:747-766 | a write is accepted if and only if the update has grown, by the bytes and to the offset its answer names |
| HostUpdate.RebootAnswer | main/serial_console.c:802-818 | a reboot is scheduled if and only if an update is finished and the task can be created; it is refused with the right error otherwise |
| HostUpdate.FrameLine | main/ble_console.c:161-180 | a request line is emitted once, when its newline arrives and not before |
| HostUpdate.Rpc | scripts/meb_ota_update.py:116-140 | for every write size the device executes exactly the command of the line sent, and is idle again |
| HostUpdate.ChunkAccepted | main/ota_update.c:192-233 | a chunk of the image sent at the current offset is accepted and extends flash by exactly it |
| HostUpdate.SendChunks | scripts/meb_ota_update.py:226-241 | from any offset the device reports, the loop ends after exactly ceil(rest/max_raw) writes, none refused |
| HostUpdate.ResumeAfterFaults | README.md:291-294 | after any such history of requests for one image, an active update is at a point from which the loop, started at the reported offset, completes the image, if and only if no call since the erase failed after touching flash |
| HostUpdate.UpdateFirmware | scripts/meb_ota_update.py:203-267 | for every image, chunk size and write size, the update succeeds if and only if the image is not empty and fits a slot and no update is under way or finished; it then takes ceil(size/max_raw) writes and leaves the image selected for the next start, the running slot untouched, and reboots if asked to; otherwise the device is unchanged |
| Heating.AppState.SetHeatingEnabled | main/app_state.c:146-170 | only an off-to-on change arms the two deadlines; enabling again changes nothing; switching off leaves no deadline |
| Heating.AppState.SetAutoOffTimerMinutes | main/app_state.c:183-198 | only the user's deadline moves, and only while heating is on; the safety deadline stays |
| Heating.AppState.ApplyAutoOff | main/app_state.c:200-230 | turns heating off only at a live deadline, with the reason of the specification `AutoOffExactly` speaks of, and otherwise changes nothing |
| Heating.AppState.TakeSessionError | main/app_state.c:232-242 | the flag is returned once and cleared |
| Heating.AppState.EffectiveAutoOffDeadline | main/app_state.c:91-101 | the earlier live deadline of the two |
| Heating.AppState.InvalidateStale | main/app_state.c:48-69 | each of the five signals is hidden by its own stamp |
| Heating.AppState.GetSnapshot | main/app_state.c:122-144 | the copy, with switch, timer and error flag, stale signals hidden and the countdown added, is the view the staleness and countdown theorems speak of |
| Heating.AppState.ProcessRxMessage | main/can_bus.c:296-321 | identifier by identifier, each signal is set from the named bits and bytes of its own messages only, and nothing else changes |
| Heating.AppState.UpdateDiagResponse | main/app_state.c:244-269 | charge level, negative response or nothing, by the leading bytes |
| Heating.InterpretExactly | main/can_bus.c:296-321 | the dispatch and its length and range checks agree, both ways, with the table of messages: identifier, least length, leading bytes and bit positions |
| Heating.HeatingBits | main/app_state.c:281-283 | the masks and shifts are the fields at bits 38 (1), 45 (3) and 42 (3) |
| Heating.ChargeBits | main/app_state.c:300 | the field of 3 bits at 15, across two bytes |
| Heating.LimitBits | main/app_state.c:315-316 | the fields of 13 bits at 51 and at 25 |
| HeatingRuns.RunKeepsInv | main/app_state.c:146-242 | in every run the deadlines are those the transitions and commands of its history ask for, and every negative response is accounted for |
| HeatingRuns.SafetyAutoOff | main/control.c:121-143 | no iteration whose auto-off stamp is at least the safety limit (180 minutes by default) after the last off-to-on transition sends a heat request |
| HeatingRuns.AutoOffExactly | main/app_state.c:200-230 | heating is turned off exactly at the earlier of the safety deadline and the deadline the history of commands asks for, with the right reason |
| HeatingRuns.SwitchFollowsHistory | main/app_state.c:146-230 | in every run heating is on if and only if the last command said so and no auto-off check has since found a deadline of the history reached |
| HeatingRuns.SnapshotShowsSettings | main/app_state.c:122-144 | a snapshot shows that switch and the last timer setting |
| HeatingConsole.ProcessHeating | main/serial_console.c:353-389 | a heating command's own value takes effect and nothing else, and the answer shows it under the request's id, if it had one |
| HeatingConsole.ProcessRequest | main/serial_console.c:846-851 | the text of a heating request does to the state exactly what its event does in a run, and every other request leaves it alone |
| HeatingRuns.SafetyBoundNeverMoves | main/app_state.c:146-198 | through any stretch of a run with heating on throughout, the safety deadline does not move, whatever commands come |
| HeatingRuns.SessionRecovery | main/app_state.c:232-268 | session requests plus the pending flag never exceed negative responses; when a heat request is about to be decided on, a session has been requested after each negative response so far |
| HeatingRuns.HeatFollowsSession | main/control.c:134-141 | in every run, a heat request made after a negative response comes after a session request made after that response, if and only if it had not been decided on when the response came |
| HeatingRuns.ConsumedErrorIsAnswered | main/control.c:136-142 | over any run in which other tasks act between taking the flag and acting on it, nothing is attempted, and the next attempt is a session request if and only if the flag was set |
| HeatingRuns.ControlIteration | main/control.c:121-143 | the loop body makes at most one attempt, the one the machine's steps make |
| HeatingRuns.SignalsFollowFrames | main/app_state.c:244-335 | each stored signal is what the last frame of the run that carries it reports, under that frame's stamp |
| HeatingRuns.StalenessRefinesHistory | main/app_state.c:43-69 | a signal is shown valid if and only if the last frame that carries it is under 30 s older than the snapshot, with that frame's bits and bytes |
| HeatingRuns.FieldsShown | main/app_state.c:244-335 | every field of every signal shown as valid is the named bit-field or byte of the last frame with the signal's identifier and length |
| HeatingRuns.OtherFramesIgnored | main/can_bus.c:296-321 | any other frame changes nothing |
| HeatingRuns.SendsOnlyWhenWanted | main/control.c:134-135 | the loop goes on to send if and only if heating is on and the latest charge-temperature frame is fresh and under optimal |
| HeatingRuns.CastExactly | main/app_state.c:71-78 | the 32-bit cast keeps the ceiling if and only if at most 2^32 - 1 minutes are left |
| HeatingRuns.CountdownAgrees | main/app_state.c:137-142 | unless the cast wraps, 0 is shown exactly when the auto-off would fire at that stamp, and otherwise the exact ceiling |
| HeatingRuns.CountdownFits | main/app_state.c:137-142 | the cast never wraps at a stamp not older than the last command, for any timer setting |
| HeatingRuns.StaleStampWraps | main/app_state.c:128-141 | at an older stamp it can: 0 minutes are reported while heating stays on |
| HeatingRuns.CountdownNeverGrows | main/app_state.c:137-142 | without a command the countdown never grows, whatever else happens, unless the cast of the earlier one wraps |
| HeatingRuns.Int64NeverOverflows | main/app_state.c:38-41 | every intermediate value fits 64 bits while the clock fits 62 |
| TxSlots.TxPool.AllocTxSlot | main/can_bus.c:61-93 | the first free slot is claimed and holds the caller's id and payload, the others staying as they are, if and only if the payload fits and one is free; this is the claiming step of the machine |
| TxSlots.TxPool.ReleaseTxSlotFromIsr | main/can_bus.c:95-116 | exactly the frame's own slot is freed and its id reported; a frame the pool does not own changes nothing |
| TxSlots.TxPool.ReleaseTxSlot | main/can_bus.c:118-127 | exactly that slot is freed, as in the step of a task whose frame was refused |
| TxSlots.TxPool.TransmitFdFrame | main/can_bus.c:458-478 | a frame that went out keeps one more slot in use; a refused frame gives its slot back; an exhausted pool is counted |
| TxSlots.TxPool.TxDoneCallback | main/can_bus.c:160-173 | exactly the frame's slot is freed, as in the completion step of the machine, and a failure recorded under the id of its frame, or under 0 for a frame the pool does not own |
| TxSlots.StepKeepsInv | main/can_bus.c:61-127 | every step of any sender, the driver or the interrupt keeps slot ownership |
| TxSlots.RunKeepsInv | main/can_bus.c:61-127 | so does every interleaving of them, of any length |
| TxSlots.HeldFramesAreIntact | main/can_bus.c:61-127 | in every interleaving the frames the driver holds are in distinct in-use slots nobody else owns, with the id and payload their caller passed |
| TxSlots.HeldUntilDone | main/can_bus.c:95-116 | a held frame stays unchanged until its own completion |
| TxSlots.DoneFreesItsSlot | main/can_bus.c:95-116 | in every interleaving a completion frees exactly its frame's slot and touches no other slot, frame or task |
| TxSlots.DoneAllowsAlloc | main/can_bus.c:61-93 | after it any idle task can claim a slot for a frame of up to 64 bytes |
| TxSlots.TransmitLendsSlot | main/can_bus.c:458-478 | in every interleaving an accepted frame is held by the driver with its id and payload, in the slot that was claimed; a refused one is not |
| TxSlots.ReturnLeavesIdle | main/can_bus.c:458-478 | a task that returns is idle; the slot of a refused frame is free, that of an accepted one is left to its completion |
| TxSlots.ExhaustedExactly | main/can_bus.c:65-92 | claiming fails if and only if the payload is too long or all eight slots are in use |
| TxSlots.SlotsConserved | main/can_bus.c:458-478 | slots in use are those claimed and not yet lent out plus those the driver holds |
| Diagnostics.DiagLog.RecordEvent | main/diagnostics.c:132-153 | the ring represents the log with the new event appended, holding the next number, the readings and the three texts, each cut to its own buffer |
| Diagnostics.DiagLog.GetEvents | main/diagnostics.c:112-130 | the snapshot is the specified view of the unbounded log |
| Diagnostics.DiagLog.SelectEvents | main/serial_console.c:433-458 | the last min(limit, 8, count) events are walked |
| Diagnostics.SnapshotIsRecent | main/diagnostics.c:112-153 | the last min(n, 16) of n events, oldest first, numbered without gaps; shown plus overwritten is n modulo 2^32 |
| Diagnostics.CopyText | main/diagnostics.c:23-34 | the copy is the longest prefix of the C string that fits the buffer with its terminator |
| JsonEscape.JsonEscape | main/diagnostics.c:177-242 | terminated inside the buffer and exactly the escape of a prefix of the text |
| JsonEscape.FitIsLongest | main/diagnostics.c:189-238 | that prefix is the longest whose escape fits, so no escape is cut |
| JsonEscape.UnescapeEscape | main/diagnostics.c:193-237 | a standard reader (RFC 8259 section 7) recovers the text |
| JsonEscape.FirmwareReadsBackExactly | main/serial_console.c:82-112 | the firmware's own reader recovers it, whatever follows, if and only if it has no control characters and fits the reader's buffer |

## Left out

- Two consoles issuing `firmware.*` commands at the same moment: `s_ota` has no lock, so each call is one atomic step here.
- HostUpdate.Rpc: passes the answer to the host as a value. `Notify.DeliverAll` shows that text lines arrive exactly; that the answer's JSON text is formatted and decoded to this value is not modelled.
- HostUpdate.UpdateFirmware: takes each answer by value for the same reason, and images of 2^32 bytes and more, whose size is no `uint32_t`, are not covered.
- Notify.Reassembler.OnNotify: stops at the stripped text; decoding it as JSON and matching its id to a waiting request is not modelled.
- Messages longer than the 2048-byte output buffer, which the firmware truncates (they lose their newline).
- The serial transport end to end: `ConsolesAgreeExactly` shows that the UART console sees the same lines.
- A CAN node that has not been created yet (the transmit call is then refused before a slot is claimed).
- Timeouts, retries and identifiers of answers on the host, and the delayed restart that an accepted `firmware.reboot` schedules (a restart is the `Reset` event of `OtaSafety`).
- The BLE command queue being drained while a fragment is still being fed; a fragment is fed in one step.
- Decoded values in physical units: signals keep their raw integer fields.
- What a slot holds beyond the bytes programmed since `esp_ota_begin`, image validation by the boot loader, and rollback.
- HostUpdate.Console.ProcessCommand: answers every request; that results of requests without an id are not sent is modelled for the heating commands only.
- What the diagnostic-session, heat and charge-level requests hold as CAN payloads, and the handlers of `device.*` and `telemetry.*` behind the dispatch.
- The size limit of the event log answer, error texts, partition labels and LED, power, GAP, UART, CAN timing and filter setup.
- Telemetry interval storage in NVS, and `scripts/meb_ble_client.py` and `scripts/publish_firmware_package.py`.
- Clock stamps of 0: the clock is assumed to have started before the first event, as 0 stands for "never" in the source.
