/**
 * The register window of the frame-capture controller: five 32-bit words that the
 * processor reads and writes by word index, and the trace of writes the controller
 * driver issues into them.
 */
module Registers {
  import opened Types

  /**
   * The controller's registers; `Index` is the word offset within the window. Distinct
   * registers have distinct offsets, so the write trace can name a register by its
   * constructor instead of its offset.
   */
  datatype Register = Control | Status | MemAddr | FrameDim | DetectedFrameDim
  {
    function Index(): (i: nat)
      ensures i < 5
      ensures this == Control <==> i == 0
      ensures this == Status <==> i == 1
      ensures this == MemAddr <==> i == 2
      ensures this == DetectedFrameDim <==> i == 4
    {
      match this
      case Control => 0
      case Status => 1
      case MemAddr => 2
      case FrameDim => 3
      case DetectedFrameDim => 4
    }
  }

  /** One word written into the register window (an IOWR). */
  datatype RegisterWrite = Write(reg: Register, value: bv32)

  // CONTROL bits
  const CONTROL_CAPTURE_BIT: bv32 := 0x01
  const CONTROL_DUMMY_DATA_BIT: bv32 := 0x02
  const CONTROL_AUTO_FRAME_DIM_BIT: bv32 := 0x04

  // STATUS bits
  const STATUS_DONE_BIT: bv32 := 0x01
  const STATUS_FIFO_FULL_BIT: bv32 := 0x02
  const STATUS_INVALID_FRAME_BIT: bv32 := 0x04

  /**
   * The value register `r` holds after the writes of `trace`, or None when the trace
   * never wrote it: the latest write to `r` wins.
   */
  function LastWritten(trace: seq<RegisterWrite>, r: Register): Option<bv32>
  {
    if trace == [] then None
    else if trace[|trace| - 1].reg == r then Some(trace[|trace| - 1].value)
    else LastWritten(trace[..|trace| - 1], r)
  }

  /** A register has no written value exactly when the trace never writes it. */
  lemma {:induction false} LastWrittenNone(trace: seq<RegisterWrite>, r: Register)
    ensures LastWritten(trace, r).None? <==> forall k :: 0 <= k < |trace| ==> trace[k].reg != r
  {
    if trace != [] && trace[|trace| - 1].reg != r {
      var front := trace[..|trace| - 1];
      LastWrittenNone(front, r);
      assert forall k :: 0 <= k < |front| ==> front[k] == trace[k];
    }
  }

  /**
   * A register's written value comes from a write to that register that no later write
   * to it follows.
   */
  lemma {:induction false} LastWrittenIsLatest(trace: seq<RegisterWrite>, r: Register)
    requires LastWritten(trace, r).Some?
    ensures exists k :: 0 <= k < |trace| && trace[k] == Write(r, LastWritten(trace, r).value) &&
                        forall j :: k < j < |trace| ==> trace[j].reg != r
  {
    var last := |trace| - 1;
    if trace[last].reg != r {
      var front := trace[..last];
      LastWrittenIsLatest(front, r);
      var k :| 0 <= k < |front| && front[k] == Write(r, LastWritten(front, r).value) &&
               forall j :: k < j < |front| ==> front[j].reg != r;
      assert trace[k] == front[k];
      assert forall j :: k < j < |trace| ==> trace[j].reg != r by {
        assert forall j :: k < j < last ==> trace[j] == front[j];
      }
    } else {
      assert trace[last] == Write(r, LastWritten(trace, r).value);
    }
  }

  /** Appending `more` to a trace: a register `more` writes takes its last value from `more`. */
  lemma {:induction false} LastWrittenAppend(trace: seq<RegisterWrite>, more: seq<RegisterWrite>, r: Register)
    ensures LastWritten(trace + more, r) ==
      if LastWritten(more, r).Some? then LastWritten(more, r) else LastWritten(trace, r)
  {
    if more != [] {
      var last := |more| - 1;
      assert (trace + more)[..|trace + more| - 1] == trace + more[..last];
      if more[last].reg != r {
        LastWrittenAppend(trace, more[..last], r);
      }
    } else {
      assert trace + more == trace;
    }
  }

  /**
   * The clear-then-set capture pulse: CONTROL = CAPTURE|AUTO_FRAME_DIM, then
   * AUTO_FRAME_DIM alone, then CAPTURE|AUTO_FRAME_DIM again.
   */
  const CapturePulse: seq<RegisterWrite> :=
    [Write(Control, 0x05), Write(Control, 0x04), Write(Control, 0x05)]

  /**
   * The pulse produces a rising edge on the capture-enable bit: its last two writes take
   * the bit from 0 to 1, auto frame dimensions stay enabled, dummy data stays off, and
   * only CONTROL is written.
   */
  lemma CapturePulseIsRisingEdge()
    ensures |CapturePulse| == 3
    ensures forall k :: 0 <= k < 3 ==> CapturePulse[k].reg == Control
    ensures forall k :: 0 <= k < 3 ==>
      CapturePulse[k].value & CONTROL_AUTO_FRAME_DIM_BIT != 0 &&
      CapturePulse[k].value & CONTROL_DUMMY_DATA_BIT == 0
    ensures CapturePulse[1].value & CONTROL_CAPTURE_BIT == 0
    ensures CapturePulse[2].value & CONTROL_CAPTURE_BIT == CONTROL_CAPTURE_BIT
  {
  }

  /**
   * After a pulse, whatever came before, CONTROL holds CAPTURE|AUTO_FRAME_DIM and every
   * other register holds what it held before the pulse.
   */
  lemma AfterCapturePulse(trace: seq<RegisterWrite>, r: Register)
    ensures LastWritten(trace + CapturePulse, Control) ==
      Some(CONTROL_CAPTURE_BIT | CONTROL_AUTO_FRAME_DIM_BIT)
    ensures r != Control ==> LastWritten(trace + CapturePulse, r) == LastWritten(trace, r)
  {
    LastWrittenAppend(trace, CapturePulse, Control);
    LastWrittenAppend(trace, CapturePulse, r);
    LastWrittenNone(CapturePulse, r);
  }
}
