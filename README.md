# D8M capture controller and overlay-image command protocol

This project is a Dafny model of two parts of an FPGA camera application for a Cyclone V
SoC: the driver of the D8M capture controller, and the handling of command datagrams in the
application's main loop. Each operation is proved to meet a contract stating what it does.

- **The `D8MCapture` controller driver** (`FPGA_CAMERA/D8MCapture.cpp`, `.h`). The frame store holds two slots of 800 x 480 x 4 bytes, back to back in physical memory.
  - `grab` waits for the capture in progress by polling STATUS, at most t * 10000 + 1 = 10001 readings 100 µs apart for its one-second timeout.
  - It then writes the address of slot `frame_index` into MEM_ADDR and flips `frame_index`.
  - It then pulses CONTROL's capture-enable bit: clear, then set.
  - `retrieve` copies width x height x 4 bytes out of slot `frame_index`. Once a `grab` has run, that is the slot the hardware is *not* writing.
  - `read` calls `grab` and then, only if the grab saw the capture complete, `retrieve`.
  - `open` resolves the slots' physical address and maps the register window and the frame store. It then aims MEM_ADDR at slot 0 and pulses once.
- **The per-datagram step of `main`'s loop** (`FPGA_CAMERA/final_project.cpp`). A datagram lands in the zeroed 16536-byte receive buffer and its first byte selects the command:
  - `'V'` copies an image chunk into the 2,000,000-byte staging buffer. The chunk's offset and length are little-endian 32-bit header fields. On the final chunk, the first 800 x 480 x 4 staging bytes become the overlay source.
  - `'E'` and `'D'` switch overlay mode on and off.
  - `'B'` and `'C'` store the brightness and the contrast byte.
  - `'Q'` stops the loop.
  - Any other tag does nothing.
  - The receive buffer is zeroed again afterwards.

Module layout:
- `Types` (`types.dfy`) holds the byte type, `Option` and the frame geometry.
- `Registers` (`registers.dfy`) holds the register layout, the register-write trace and the capture pulse.
- `Capture` (`capture.dfy`) holds class `D8MCapture`.
- `Protocol` (`protocol.dfy`) holds the datagram format and the meaning of each command, as functions.
- `MainLoop` (`application.dfy`) holds class `Application`: `main`'s state, the step, and the `while (application_running)` loop.

How the hardware and the operating system appear in the model:
- **Register writes** go into a ghost trace `writes`. The value a register holds is the last value written to it (`LastWritten`).
- **Register reads** are parameters: the sequence of values STATUS returns while polling, and the DETECTED_FRAME_DIM value.
- **The frame store** is one array of 2 x 1,536,000 bytes (`region`). Only the hardware writes it, so no method of the controller lists it in `modifies`.
- **The operating-system steps of `open`** are an input, `MapResult`. It says which step failed, or gives the physical base address and the mapped array.
- **Select and recv** in `main` become a `SelectResult` input: an error, nothing pending, or the datagram's bytes.
- **`wait_done` and `start_capture`** are private in the C++ class. In the model (`WaitDone`, `StartCapture`, and `WriteRegister` for IOWR) they require the mapped state. Only `Grab` calls `WaitDone`; `Grab` and `Open` call `StartCapture`; `Grab`, `Open` and `StartCapture` call `WriteRegister`.

Behaviour of the code that the model keeps as written and proves:
- `open` returns true when `/dev/mem` cannot be opened (`D8MCapture.cpp:162-165`). It changes nothing but the physical base address the ioctl already stored: `opened` keeps its old value, so a closed controller stays closed and an open one stays open.
- `open` does not reset `frame_index`. After the constructor opens the device, MEM_ADDR points at slot 0 while `frame_index` is 0 (`Connect` states this as `!Alternating()`). A `retrieve` before any `grab` therefore reads slot 0, the slot being written. The first `read` after construction runs a `grab` that points MEM_ADDR at slot 0 again and sets `frame_index` to 1, so it retrieves slot 1, which the hardware has not written. From then on every `grab` establishes `Alternating()`: MEM_ADDR targets the slot `retrieve` does not read. After a grab that started alternating, `retrieve` reads exactly the slot the previous capture was aimed at.
- A `grab` whose poll times out still flips the slot and starts a new capture. `read` then returns false without copying.

Other facts about the code that the model keeps:
- The poll reads STATUS up to `t * 10000 + 1` times (`D8MCapture.cpp:81-85`): `i` counts down from `t * 10000` while `i >= 0`.
- On a failed frame-store mapping, `open` closes `/dev/mem` but leaves the register window mapped (`D8MCapture.cpp:173-179`).
- A chunk carries at most 16536 - 10 = 16526 payload bytes, since it must fit the receive buffer after the 10-byte header (`final_project.cpp:108`, `:170`).
- Brightness and contrast bytes are stored as received (`final_project.cpp:226`, `:236`). Nothing restricts them to 0-100.

## Model

| member | source | states |
|---|---|---|
| `Registers.Register.Index` | FPGA_CAMERA/D8MCapture.cpp:22-26 | CONTROL, STATUS, MEM_ADDR and DETECTED_FRAME_DIM sit at word offsets 0, 1, 2 and 4 of the window, each at its own offset |
| `Registers.LastWrittenNone` | FPGA_CAMERA/D8MCapture.cpp:19-20 | a register has no written value exactly when no write in the trace targets it |
| `Registers.LastWrittenIsLatest` | FPGA_CAMERA/D8MCapture.cpp:19-20 | a register's value is that of a write to it that no later write to it follows |
| `Registers.LastWrittenAppend` | FPGA_CAMERA/D8MCapture.cpp:19-20 | after further writes, a register takes its value from them if they write it and keeps its old value otherwise |
| `Registers.CapturePulseIsRisingEdge` | FPGA_CAMERA/D8MCapture.cpp:118-129 | the pulse is three CONTROL writes; auto frame dimension is on and dummy data off in each; the capture bit goes from 0 to 1 over the last two |
| `Registers.AfterCapturePulse` | FPGA_CAMERA/D8MCapture.cpp:118-129 | after a pulse CONTROL holds CAPTURE\|AUTO_FRAME_DIM whatever it held before, and every other register is unchanged |
| `Capture.RegisterWindowOffset` | FPGA_CAMERA/D8MCapture.cpp:182-183 | the controller's offset inside the mapped window is below HW_REGS_SPAN and equals the 32-bit sum of the slave offset and the capture base in the bits HW_REGS_MASK keeps |
| `Capture.SlotOffsetIsSlotBytes` | FPGA_CAMERA/D8MCapture.cpp:108-109 | the 32-bit slot offset added to MEM_ADDR is 800 * 480 * 4 |
| `Capture.SlotAddressesDiffer` | FPGA_CAMERA/D8MCapture.cpp:104-110 | MEM_ADDR for slot 0 and for slot 1 always differ, even when slot 1's address wraps around 2^32 |
| `Capture.PollBudget` | FPGA_CAMERA/D8MCapture.cpp:81-85 | `wait_done(t)` reads STATUS at most t * 10000 + 1 times |
| `Capture.Polls` | FPGA_CAMERA/D8MCapture.cpp:85-93 | the poll takes at least one and at most budget readings; every reading before the last lacks the done bit; it stops early only right after a reading with the done bit |
| `Capture.PollSucceededIff` | FPGA_CAMERA/D8MCapture.cpp:85-95 | the poll reports done exactly when some reading within the budget has the done bit |
| `Capture.PollStopsAtFirstDone` | FPGA_CAMERA/D8MCapture.cpp:85-94 | the poll ends right after the first reading with the done bit and records that reading as the status |
| `Capture.FrameWidth` | FPGA_CAMERA/D8MCapture.cpp:64 | the width read from DETECTED_FRAME_DIM is below 65536 |
| `Capture.FrameHeight` | FPGA_CAMERA/D8MCapture.cpp:65 | the height read from DETECTED_FRAME_DIM is below 65536 |
| `Capture.FrameDimSplit` | FPGA_CAMERA/D8MCapture.cpp:64-65 | the width field shifted up 16 bits, or-ed with the height field, is the DETECTED_FRAME_DIM word: width is its upper half-word and height its lower one |
| `Capture.CopyLength` | FPGA_CAMERA/D8MCapture.cpp:72-74 | `retrieve` copies width * height * 4 bytes, at most one frame when width * height fits 800 * 480 |
| `Capture.D8MCapture.constructor` | FPGA_CAMERA/D8MCapture.cpp:38-42 | a new controller is closed, with `frame_index` 0 and no register written |
| `Capture.D8MCapture.Connect` | FPGA_CAMERA/D8MCapture.cpp:44-49 | constructing with a device leaves `frame_index` 0; it is open exactly when all mappings succeed, and then MEM_ADDR holds the base address and one pulse followed; MEM_ADDR does not yet point away from the slot `retrieve` reads |
| `Capture.D8MCapture.WriteRegister` | FPGA_CAMERA/D8MCapture.cpp:20 | an IOWR appends exactly one (register, value) write to the trace |
| `Capture.D8MCapture.StartCapture` | FPGA_CAMERA/D8MCapture.cpp:118-129 | the bit operations on `Command` write CONTROL exactly three times, 0x05, 0x04, 0x05, and nothing else |
| `Capture.D8MCapture.WaitDone` | FPGA_CAMERA/D8MCapture.cpp:78-96 | returns whether the poll saw the done bit and how many readings it took (`Polls`: at most t * 10000 + 1, stopping right after the first done reading); stores the last reading in `capture_status`, changing nothing else |
| `Capture.D8MCapture.Grab` | FPGA_CAMERA/D8MCapture.cpp:98-116 | returns `wait_done(1)`'s result, flips `frame_index` whatever that result, writes MEM_ADDR = the old slot's address (base, or base + 1536000 mod 2^32) then the pulse, and leaves MEM_ADDR on the slot `retrieve` does not read; after an alternating state, `retrieve` now reads the slot the previous capture targeted |
| `Capture.D8MCapture.Retrieve` | FPGA_CAMERA/D8MCapture.cpp:56-76 | always returns true; the output's first width * height * 4 bytes are those of slot `frame_index`, the rest of the output is unchanged; no controller field changes and `flag` has no effect |
| `Capture.D8MCapture.Read` | FPGA_CAMERA/D8MCapture.cpp:131-139 | grabs, with the same effect on `frame_index`, `capture_status`, the registers and the slot alternation as `Grab`; returns true exactly when the poll saw completion; it then holds the retrieved slot, and on a timeout the image is untouched |
| `Capture.D8MCapture.IsOpened` | FPGA_CAMERA/D8MCapture.cpp:141-144 | reports `opened`, and when true the register window and frame store are mapped |
| `Capture.D8MCapture.Open` | FPGA_CAMERA/D8MCapture.cpp:146-190 | on full success: mapped, `opened`, MEM_ADDR = base, one pulse, offset from `RegisterWindowOffset`; on a failure nothing but the already-queried base address changes; returns true on success and also on a `/dev/mem` failure |
| `Capture.D8MCapture.Release` | FPGA_CAMERA/D8MCapture.cpp:192-203 | the controller is closed and unmapped afterwards |
| `Protocol.DecodeLE32` | FPGA_CAMERA/final_project.cpp:148-153 | four bytes decode to a value below 2^32 |
| `Protocol.EncodeLE32` | FPGA_CAMERA/final_project.cpp:148-162 | the little-endian encoding of a 32-bit value is four bytes that decode back to it |
| `Protocol.EncodeDecodeLE32` | FPGA_CAMERA/final_project.cpp:148-162 | every four bytes are the encoding of what they decode to |
| `Protocol.ParseChunkHeader` | FPGA_CAMERA/final_project.cpp:142-162 | the final-chunk flag is byte 1; offset and length are below 2^32 |
| `Protocol.ChunkHeaderRoundTrip` | FPGA_CAMERA/final_project.cpp:148-162 | bytes 2-5 and 6-9 are exactly the little-endian encodings of the decoded offset and length |
| `Protocol.ReceiveBuffer` | FPGA_CAMERA/final_project.cpp:130 | a datagram received into the cleared buffer occupies its start, and every byte past its end reads 0 |
| `Protocol.ChunkPayload` | FPGA_CAMERA/final_project.cpp:170 | the chunk is the `length` bytes from byte 10 on |
| `Protocol.ApplyChunk` | FPGA_CAMERA/final_project.cpp:170 | after copying a chunk, each covered byte comes from the chunk and every other byte is as before |
| `Protocol.OverlappingChunks` | FPGA_CAMERA/final_project.cpp:170 | of two chunks, the later wins where they overlap; the earlier one's bytes survive elsewhere |
| `Protocol.ConsecutiveChunks` | FPGA_CAMERA/final_project.cpp:166-170 | a chunk at 0 followed by one at the first's length leaves their concatenation at the start of the buffer |
| `Protocol.ChunkCopy` | FPGA_CAMERA/final_project.cpp:170 | a buffer holding the chunk at its offsets and the old bytes elsewhere is the 'V' command's result |
| `Protocol.ImageLength` | FPGA_CAMERA/final_project.cpp:172-174 | an image length is reported exactly on a 'V' datagram with non-zero flag, and it is offset + length, at most 2,000,000 |
| `Protocol.OverlayCommands` | FPGA_CAMERA/final_project.cpp:206-219 | 'E' sets and 'D' clears overlay mode, and neither changes another setting |
| `Protocol.AdjustCommands` | FPGA_CAMERA/final_project.cpp:222-239 | 'B' stores byte 1 as brightness and 'C' as contrast, changing no other setting |
| `Protocol.OnlyQuitStops` | FPGA_CAMERA/final_project.cpp:242-245 | a datagram stops the application exactly when its tag is 'Q' |
| `Protocol.UnknownTagIsIgnored` | FPGA_CAMERA/final_project.cpp:134-247 | a tag outside V, E, D, B, C, Q changes no setting, no staging byte and not the overlay, and reports no image |
| `Protocol.ChunkCommand` | FPGA_CAMERA/final_project.cpp:137-203 | 'V' writes staging[offset + i] = r[10 + i] for i < length and no other staging byte; a non-zero flag makes the first 800 * 480 * 4 staging bytes the overlay whatever earlier chunks covered, a zero flag keeps the overlay |
| `MainLoop.Iterations` | FPGA_CAMERA/final_project.cpp:111-126 | the loop runs through the first input that stops it, a select error or a 'Q', or through all inputs; no input before the last one run stops it |
| `MainLoop.Application.constructor` | FPGA_CAMERA/final_project.cpp:20-109 | start-up state: the globals at lines 20-35 (overlay off, brightness and contrast 50, staging buffer zero) and the locals at lines 108-109 (receive buffer zero, running); the image loading in between is not modelled |
| `MainLoop.Application.Receive` | FPGA_CAMERA/final_project.cpp:130 | the datagram overwrites the start of the receive buffer and the rest is kept |
| `MainLoop.Application.ImageChunk` | FPGA_CAMERA/final_project.cpp:137-203 | the in-place copy produces exactly the 'V' command's staging buffer, overlay and image length |
| `MainLoop.Application.Dispatch` | FPGA_CAMERA/final_project.cpp:134-247 | the switch produces exactly the settings, staging buffer, overlay and image length the command in the buffer defines |
| `MainLoop.Application.ClearResponse` | FPGA_CAMERA/final_project.cpp:250 | the whole receive buffer is zero afterwards |
| `MainLoop.Application.Step` | FPGA_CAMERA/final_project.cpp:121-251 | a select error only stops the loop; nothing pending changes nothing; a datagram's command is applied to the zero-padded buffer; the loop keeps running unless a select error or a 'Q' arrived; the receive buffer is zero again |
| `MainLoop.StepState` | FPGA_CAMERA/final_project.cpp:121-251 | one iteration keeps the staging buffer's size and is still running exactly when it was running before and its input does not stop the loop |
| `MainLoop.Replay` | FPGA_CAMERA/final_project.cpp:111-251 | iterations over a sequence of inputs keep the staging buffer's size; the loop is still running exactly when it was running before and no input stopped it |
| `MainLoop.Application.Run` | FPGA_CAMERA/final_project.cpp:111-251 | the loop stops right after the first select error or 'Q' and runs `Iterations(events)` times; it is still running exactly when none of those inputs stopped it; the settings, staging buffer and overlay afterwards are those of applying each iteration's step (`StepState`) to the inputs it handled, in order |

## Left out

- Sockets are not modelled: `socket`, `bind`, the greeting `sendto`, and the `select` and `recv` calls. Their outcome is the `SelectResult` input.
- `Capture.D8MCapture.Open` takes the results of `::open`, `ioctl`, `mmap` and `close` as input (`MapResult`). It does not model `mem_fd`, `h2f_lw_virtual_base`, the MAP_FAILED values a failed mmap leaves behind, or the register mapping leaked when the frame-store mmap fails.
- `Capture.D8MCapture.Release` does not model `munmap` or `close`, or what a release before any open does to those handles.
- The destructor `~D8MCapture`, which calls `release`, is not modelled: Dafny has no destructors.
- STATUS and DETECTED_FRAME_DIM reads are supplied inputs. Volatile MMIO and the hardware writing the frame store concurrently are not modelled.
- `usleep` is not modelled. Time is counted only as poll iterations.
- FPGA_CAMERA/D8MCapture.cpp includes `socal/hps.h`, which is not part of this model. `ALT_LWFPGASLVS_OFST` is taken as 0xFF200000, and `RegisterWindowOffset`'s contract holds for any value of it.
- `Capture.D8MCapture.WaitDone` requires 0 <= timeoutS <= 2147. A negative timeout leaves `status` uninitialised. A larger one overflows `timeout_s * 1000 * 1000` as a signed int. `grab` passes 1.
- `Capture.D8MCapture.Retrieve` and `Capture.D8MCapture.Read` require width * height <= 800 * 480, because the code copies without checking. They also take an output array that already has the 800 x 480 x 4 geometry, so `image.create`'s allocation is not modelled.
- `MainLoop.Application.Step` and `MainLoop.Application.Run` require a 'V' datagram to satisfy offset + length <= 2,000,000 and 10 + length <= 16536. The code checks neither.
- `Protocol.DecodeLE32` models the intended unsigned little-endian value. It does not model the signed-int overflow of `(unsigned char)b << 24` for bytes of 0x80 and up.
- The OpenCV calls are not modelled: `imread`, `resize`, `split`, `merge`, `copyTo`, `cvtColor`, `convertTo`, `imshow`, `waitKey` and `Mat` construction. The overlay promotion is modelled as a snapshot of the first 1,536,000 staging bytes (`overlayImage`). The image loaded at start-up is `None`.
- The derived coefficients `beta` and `alpha` (double arithmetic, and an undefined negative-double to `unsigned char` cast) are not modelled.
- The capture `read` and the display at the end of each loop iteration are not part of `MainLoop.Application.Run`.
