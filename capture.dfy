/**
 * The D8M frame-capture controller driver: a double-buffered frame store in physical
 * memory, a register window used to program the capture target and pulse the
 * capture-enable bit, a bounded poll for completion, and the copy of a finished frame
 * out of the slot the hardware is not writing.
 *
 * The hardware is not modelled: the values the STATUS and DETECTED_FRAME_DIM registers
 * return are parameters, and the frame store is an array only the hardware writes.
 */
module Capture {
  import opened Types
  import opened Registers

  /** Size of the lightweight HPS-to-FPGA register window that is mapped at open time. */
  const HW_REGS_SPAN: bv32 := 0x0400_0000
  const HW_REGS_MASK: bv32 := HW_REGS_SPAN - 1
  /**
   * Offset of the lightweight FPGA slaves within that window's address map
   * (ALT_LWFPGASLVS_OFST of the Cyclone V HPS address map).
   */
  const ALT_LWFPGASLVS_OFST: bv32 := 0xFF20_0000

  /** One slot holds a frame; the mapped frame store holds two slots back to back. */
  const SLOT_BYTES: nat := FRAME_BYTES
  const BUFF_SPAN: nat := 2 * SLOT_BYTES
  /** SLOT_BYTES as a 32-bit address offset (800 * 480 * 4 == 0x17_7000). */
  const SLOT_OFFSET: bv32 := 0x0017_7000

  /** `grab` waits at most one second for the capture in progress. */
  const GRAB_TIMEOUT_S: int := 1
  /** Largest timeout for which `timeout_s * 1000 * 1000` fits a 32-bit signed int. */
  const MAX_TIMEOUT_S: int := 2147

  /** Byte offset of the controller's registers within the mapped window. */
  function RegisterWindowOffset(captureBase: bv32): (off: bv32)
    ensures off < HW_REGS_SPAN
    ensures off & HW_REGS_MASK == (ALT_LWFPGASLVS_OFST + captureBase) & HW_REGS_MASK
  {
    (ALT_LWFPGASLVS_OFST + captureBase) & HW_REGS_MASK
  }

  /** Physical address of slot `slot` in a frame store based at `base` (32-bit arithmetic). */
  function SlotAddress(base: bv32, slot: int): (a: bv32)
    requires slot == 0 || slot == 1
    ensures slot == 0 ==> a == base
    ensures slot == 1 ==> a - base == SLOT_OFFSET
  {
    if slot == 0 then base else base + SLOT_OFFSET
  }

  lemma SlotOffsetIsSlotBytes()
    ensures SLOT_OFFSET as int == SLOT_BYTES
  {
  }

  /** The two slots never share an address, even when slot 1's address wraps. */
  lemma SlotAddressesDiffer(base: bv32)
    ensures SlotAddress(base, 0) != SlotAddress(base, 1)
  {
  }

  /** Whether a STATUS reading reports the capture as done. */
  predicate IsDone(status: bv32) {
    status & STATUS_DONE_BIT == STATUS_DONE_BIT
  }

  /** At most how many times `wait_done(timeoutS)` reads STATUS. */
  function PollBudget(timeoutS: int): (b: nat)
    requires 0 <= timeoutS <= MAX_TIMEOUT_S
    ensures b == timeoutS * 10000 + 1
  {
    timeoutS * 1000 * 1000 / 100 + 1
  }

  /**
   * How many STATUS readings a poll with `budget` readings takes when the hardware
   * answers with `readings`: it stops right after the first reading with the done bit,
   * and after `budget` readings otherwise.
   */
  function Polls(readings: seq<bv32>, budget: nat): (n: nat)
    requires budget <= |readings|
    ensures n <= budget
    ensures budget > 0 ==> n > 0
    ensures forall j :: 0 <= j < n - 1 ==> !IsDone(readings[j])
    ensures n < budget ==> IsDone(readings[n - 1])
  {
    if budget == 0 then 0
    else if IsDone(readings[0]) then 1
    else 1 + Polls(readings[1..], budget - 1)
  }

  /** The last STATUS value such a poll reads. */
  function LastStatus(readings: seq<bv32>, budget: nat): bv32
    requires 1 <= budget <= |readings|
  {
    readings[Polls(readings, budget) - 1]
  }

  /** Whether such a poll observes completion. */
  predicate PollSucceeded(readings: seq<bv32>, budget: nat)
    requires 1 <= budget <= |readings|
  {
    IsDone(LastStatus(readings, budget))
  }

  /** A poll succeeds exactly when one of the readings within its budget reports done. */
  lemma PollSucceededIff(readings: seq<bv32>, budget: nat)
    requires 1 <= budget <= |readings|
    ensures PollSucceeded(readings, budget) <==>
      exists j :: 0 <= j < budget && IsDone(readings[j])
  {
    var n := Polls(readings, budget);
    if j :| 0 <= j < budget && IsDone(readings[j]) {
      assert j >= n - 1;
    }
  }

  /** A poll stops right after the first done reading and records it as the status. */
  lemma PollStopsAtFirstDone(readings: seq<bv32>, budget: nat, j: nat)
    requires j < budget <= |readings|
    requires IsDone(readings[j]) && forall i :: 0 <= i < j ==> !IsDone(readings[i])
    ensures Polls(readings, budget) == j + 1
    ensures LastStatus(readings, budget) == readings[j]
  {
  }

  /** The upper half-word of DETECTED_FRAME_DIM, which holds the width. */
  function WidthField(dim: bv32): bv16 {
    (dim >> 16) as bv16
  }

  /** The lower half-word of DETECTED_FRAME_DIM, which holds the height. */
  function HeightField(dim: bv32): bv16 {
    (dim & 0xFFFF) as bv16
  }

  /** Width of the detected frame, in pixels. */
  function FrameWidth(dim: bv32): (w: nat)
    ensures w < 0x1_0000
  {
    WidthField(dim) as nat
  }

  /** Height of the detected frame, in pixels. */
  function FrameHeight(dim: bv32): (h: nat)
    ensures h < 0x1_0000
  {
    HeightField(dim) as nat
  }

  /** The width and height fields are the two halves of DETECTED_FRAME_DIM, and nothing else. */
  lemma FrameDimSplit(dim: bv32)
    ensures ((WidthField(dim) as bv32) << 16) | (HeightField(dim) as bv32) == dim
  {
  }

  /** Bytes `retrieve` copies for a detected frame dimension. */
  function CopyLength(dim: bv32): (n: nat)
    requires FrameWidth(dim) * FrameHeight(dim) <= FRAME_PIXELS
    ensures n <= FRAME_BYTES
    ensures n == FrameWidth(dim) * FrameHeight(dim) * BYTES_PER_PIXEL
  {
    FrameWidth(dim) * FrameHeight(dim) * BYTES_PER_PIXEL
  }

  /** What the operating-system steps of `open` produce, in the order they are tried. */
  datatype MapResult =
    | RamDeviceUnavailable                 // the capture RAM device cannot be opened
    | PhysicalAddressUnavailable           // the physical-address query fails
    | DevMemUnavailable(physBase: bv32)    // /dev/mem cannot be opened
    | RegisterMapFailed(physBase: bv32)    // the register window cannot be mapped
    | BufferMapFailed(physBase: bv32)      // the frame store cannot be mapped
    | Mapped(physBase: bv32, region: array<Byte>)

  class D8MCapture {
    /** `opened` (a reserved word in Dafny). */
    var isOpen: bool
    /** The slot `retrieve` reads; `grab` points the hardware at the other one. */
    var frameIndex: int
    /** Physical address of slot 0 (slot 1 follows it). */
    var captureSdramBase: bv32
    /** The last STATUS value `wait_done` read. */
    var captureStatus: bv32
    /** The mapped frame store: slot 0 (capture_sdram1) then slot 1 (capture_sdram2). */
    var region: array?<Byte>
    /** Where the controller's registers start within the mapped register window. */
    var registerOffset: bv32
    /** Whether the register window and frame store are mapped. */
    ghost var mapped: bool
    /** Every word written into the controller's registers, oldest first. */
    ghost var writes: seq<RegisterWrite>

    ghost predicate Mapped()
      reads this
    {
      mapped && region != null && region.Length == BUFF_SPAN && registerOffset < HW_REGS_SPAN
    }

    ghost predicate Valid()
      reads this
    {
      (frameIndex == 0 || frameIndex == 1) && isOpen == mapped && (mapped ==> Mapped())
    }

    /** The value MEM_ADDR holds: the hardware's next capture target. */
    ghost function MemAddr(): Option<bv32>
      reads this
    {
      LastWritten(writes, Registers.MemAddr)
    }

    /** The hardware writes the slot `retrieve` does not read. */
    ghost predicate Alternating()
      reads this
      requires Valid()
    {
      MemAddr() == Some(SlotAddress(captureSdramBase, 1 - frameIndex))
    }

    /** The bytes of slot `slot` of the frame store. */
    ghost function Slot(slot: int): seq<Byte>
      reads this, region
      requires Valid() && isOpen && (slot == 0 || slot == 1)
    {
      region[slot * SLOT_BYTES..(slot + 1) * SLOT_BYTES]
    }

    /** D8MCapture(): closed, slot 0 selected. */
    constructor ()
      ensures Valid() && !isOpen && frameIndex == 0 && writes == []
    {
      isOpen := false;
      frameIndex := 0;
      region := null;
      mapped := false;
      writes := [];
    }

    /** D8MCapture(capture_base, device): as the plain constructor, then `open`. */
    constructor Connect(captureBase: bv32, outcome: MapResult)
      requires outcome.Mapped? ==> outcome.region.Length == BUFF_SPAN
      ensures Valid() && frameIndex == 0 && isOpen == outcome.Mapped?
      ensures isOpen ==> region == outcome.region && captureSdramBase == outcome.physBase &&
                         registerOffset == RegisterWindowOffset(captureBase) &&
                         writes == [Write(Registers.MemAddr, outcome.physBase)] + CapturePulse
      ensures !isOpen ==> writes == []
      ensures isOpen ==> !Alternating()
    {
      isOpen := false;
      frameIndex := 0;
      region := null;
      mapped := false;
      writes := [];
      new;
      var _ := Open(captureBase, outcome);
      SlotAddressesDiffer(captureSdramBase);
    }

    /** An IOWR into the controller's register window. */
    method WriteRegister(r: Register, value: bv32)
      requires Mapped()
      modifies this`writes
      ensures writes == old(writes) + [Write(r, value)]
    {
      writes := writes + [Write(r, value)];
    }

    /**
     * start_capture (private): CONTROL := CAPTURE|AUTO_FRAME_DIM, clear CAPTURE, set it
     * again, so the capture-enable line sees a rising edge.
     */
    method StartCapture()
      requires Mapped()
      modifies this`writes
      ensures writes == old(writes) + CapturePulse
    {
      var command: bv32 := 0;
      command := command | CONTROL_CAPTURE_BIT | CONTROL_AUTO_FRAME_DIM_BIT;
      WriteRegister(Control, command);
      command := command & !CONTROL_CAPTURE_BIT;
      WriteRegister(Control, command);
      command := command | CONTROL_CAPTURE_BIT;
      WriteRegister(Control, command);
    }

    /**
     * wait_done (private): read STATUS every 100 microseconds until the done bit shows
     * or `timeoutS * 10000` further readings have passed; the k-th reading returns
     * `statusReadings[k]`, and `polled` is how many readings were taken.
     */
    method WaitDone(timeoutS: int, statusReadings: seq<bv32>) returns (done: bool, polled: nat)
      requires Mapped()
      requires 0 <= timeoutS <= MAX_TIMEOUT_S
      requires PollBudget(timeoutS) <= |statusReadings|
      modifies this`captureStatus
      ensures done == PollSucceeded(statusReadings, PollBudget(timeoutS))
      ensures captureStatus == LastStatus(statusReadings, PollBudget(timeoutS))
      ensures polled == Polls(statusReadings, PollBudget(timeoutS))
    {
      ghost var budget := PollBudget(timeoutS);
      done := false;
      var i: int := timeoutS * 1000 * 1000 / 100;
      var status: bv32 := 0;
      polled := 0;
      while !done && i >= 0
        invariant 0 <= polled <= budget && i == budget - 1 - polled
        invariant polled == 0 ==> !done
        invariant polled > 0 ==> status == statusReadings[polled - 1] && done == IsDone(status)
        invariant !done ==> Polls(statusReadings, budget) ==
                            polled + Polls(statusReadings[polled..], budget - polled)
        invariant done ==> Polls(statusReadings, budget) == polled
      {
        status := statusReadings[polled];
        assert statusReadings[polled..][0] == status;
        assert statusReadings[polled..][1..] == statusReadings[polled + 1..];
        if status & STATUS_DONE_BIT == STATUS_DONE_BIT {
          done := true;
        }
        // usleep(100)
        i := i - 1;
        polled := polled + 1;
      }
      captureStatus := status;
    }

    /**
     * grab: wait for the capture in progress (a timeout does not stop it), point the
     * hardware at the other slot, and pulse capture-enable.
     */
    method Grab(statusReadings: seq<bv32>) returns (done: bool)
      requires Valid() && isOpen
      requires PollBudget(GRAB_TIMEOUT_S) <= |statusReadings|
      modifies this`frameIndex, this`captureStatus, this`writes
      ensures Valid() && isOpen
      ensures done == PollSucceeded(statusReadings, PollBudget(GRAB_TIMEOUT_S))
      ensures captureStatus == LastStatus(statusReadings, PollBudget(GRAB_TIMEOUT_S))
      ensures frameIndex == 1 - old(frameIndex)
      ensures writes == old(writes) +
        [Write(Registers.MemAddr, SlotAddress(captureSdramBase, old(frameIndex)))] + CapturePulse
      ensures Alternating()
      ensures LastWritten(writes, Control) == Some(CONTROL_CAPTURE_BIT | CONTROL_AUTO_FRAME_DIM_BIT)
      ensures old(Alternating()) ==> old(MemAddr()) == Some(SlotAddress(captureSdramBase, frameIndex))
    {
      var polled;
      done, polled := WaitDone(GRAB_TIMEOUT_S, statusReadings);
      ghost var before := writes;
      if frameIndex == 0 {
        WriteRegister(Registers.MemAddr, captureSdramBase);
        frameIndex := 1;
      } else {
        WriteRegister(Registers.MemAddr, captureSdramBase + SLOT_OFFSET);
        frameIndex := 0;
      }
      ghost var target := writes;
      StartCapture();
      AfterCapturePulse(target, Registers.MemAddr);
      LastWrittenAppend(before, [Write(Registers.MemAddr, SlotAddress(captureSdramBase, 1 - frameIndex))],
                        Registers.MemAddr);
    }

    /**
     * retrieve: copy width * height * 4 bytes of the slot `frameIndex` selects into the
     * 800 x 480 x 4 output image, width and height taken from DETECTED_FRAME_DIM.
     * `flag` has no effect.
     */
    method Retrieve(image: array<Byte>, detectedFrameDim: bv32, flag: int := 0) returns (ok: bool)
      requires Valid() && isOpen
      requires image.Length == FRAME_BYTES && image != region
      requires FrameWidth(detectedFrameDim) * FrameHeight(detectedFrameDim) <= FRAME_PIXELS
      modifies image
      ensures ok
      ensures image[..CopyLength(detectedFrameDim)] == Slot(frameIndex)[..CopyLength(detectedFrameDim)]
      ensures image[CopyLength(detectedFrameDim)..] == old(image[CopyLength(detectedFrameDim)..])
    {
      var value := detectedFrameDim;
      var width := FrameWidth(value);
      var height := FrameHeight(value);
      ok := true;
      var n := width * height * BYTES_PER_PIXEL;
      if frameIndex == 0 {
        forall i | 0 <= i < n {
          image[i] := region[i];
        }
      } else {
        forall i | 0 <= i < n {
          image[i] := region[SLOT_BYTES + i];
        }
      }
    }

    /** read: grab, then retrieve only if the grab saw the capture complete. */
    method Read(image: array<Byte>, statusReadings: seq<bv32>, detectedFrameDim: bv32) returns (ok: bool)
      requires Valid() && isOpen
      requires PollBudget(GRAB_TIMEOUT_S) <= |statusReadings|
      requires image.Length == FRAME_BYTES && image != region
      requires PollSucceeded(statusReadings, PollBudget(GRAB_TIMEOUT_S)) ==>
        FrameWidth(detectedFrameDim) * FrameHeight(detectedFrameDim) <= FRAME_PIXELS
      modifies this`frameIndex, this`captureStatus, this`writes, image
      ensures Valid() && isOpen
      ensures ok == PollSucceeded(statusReadings, PollBudget(GRAB_TIMEOUT_S))
      ensures captureStatus == LastStatus(statusReadings, PollBudget(GRAB_TIMEOUT_S))
      ensures frameIndex == 1 - old(frameIndex)
      ensures writes == old(writes) +
        [Write(Registers.MemAddr, SlotAddress(captureSdramBase, old(frameIndex)))] + CapturePulse
      ensures Alternating()
      ensures old(Alternating()) ==> old(MemAddr()) == Some(SlotAddress(captureSdramBase, frameIndex))
      ensures !ok ==> image[..] == old(image[..])
      ensures ok ==> image[..CopyLength(detectedFrameDim)] == Slot(frameIndex)[..CopyLength(detectedFrameDim)]
      ensures ok ==> image[CopyLength(detectedFrameDim)..] == old(image[CopyLength(detectedFrameDim)..])
    {
      ok := true;
      if ok {
        ok := Grab(statusReadings);
      }
      if ok {
        ok := Retrieve(image, detectedFrameDim);
      }
    }

    /** isOpened: true exactly while the register window and frame store are mapped. */
    method IsOpened() returns (r: bool)
      requires Valid()
      ensures r == isOpen
      ensures r ==> Mapped()
    {
      r := isOpen;
    }

    /**
     * open: record the frame store's physical address, map the register window and the
     * frame store, then aim MEM_ADDR at slot 0 and pulse capture-enable. Returns true
     * also when /dev/mem cannot be opened, though the controller then stays as it was.
     */
    method Open(captureBase: bv32, outcome: MapResult) returns (ok: bool)
      requires Valid()
      requires outcome.Mapped? ==> outcome.region.Length == BUFF_SPAN
      modifies this
      ensures Valid()
      ensures ok == (outcome.Mapped? || outcome.DevMemUnavailable?)
      ensures frameIndex == old(frameIndex) && captureStatus == old(captureStatus)
      ensures captureSdramBase ==
        if outcome.RamDeviceUnavailable? || outcome.PhysicalAddressUnavailable?
        then old(captureSdramBase) else outcome.physBase
      ensures outcome.Mapped? ==>
        isOpen && region == outcome.region && registerOffset == RegisterWindowOffset(captureBase) &&
        writes == old(writes) + [Write(Registers.MemAddr, outcome.physBase)] + CapturePulse
      ensures outcome.Mapped? ==> MemAddr() == Some(SlotAddress(captureSdramBase, 0))
      ensures !outcome.Mapped? ==>
        isOpen == old(isOpen) && region == old(region) && registerOffset == old(registerOffset) &&
        writes == old(writes)
    {
      if outcome.RamDeviceUnavailable? || outcome.PhysicalAddressUnavailable? {
        return false;
      }
      captureSdramBase := outcome.physBase;
      if outcome.DevMemUnavailable? {
        return true;
      }
      if !outcome.Mapped? {
        return false;
      }
      region := outcome.region;
      registerOffset := RegisterWindowOffset(captureBase);
      mapped := true;
      WriteRegister(Registers.MemAddr, captureSdramBase);
      ghost var target := writes;
      StartCapture();
      AfterCapturePulse(target, Registers.MemAddr);
      LastWrittenAppend(old(writes), [Write(Registers.MemAddr, captureSdramBase)], Registers.MemAddr);
      isOpen := true;
      ok := true;
    }

    /** release: unmap both regions and mark the controller closed. */
    method Release()
      requires Valid()
      modifies this`isOpen, this`mapped
      ensures Valid() && !isOpen
    {
      mapped := false;
      isOpen := false;
    }
  }
}
