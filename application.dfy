/**
 * The state `main` keeps across iterations of its loop, and the part of one iteration
 * that handles an incoming datagram: receive it into the cleared receive buffer,
 * carry out its command, clear the buffer again.
 */
module MainLoop {
  import opened Types
  import opened Protocol

  /** What checking the socket for a pending datagram yields in one iteration. */
  datatype SelectResult =
    | SelectFailed                          // select reports an error
    | NothingPending                        // no datagram is waiting
    | Received(datagram: seq<Byte>)         // a datagram was read

  /** Whether handling `sel` stops the loop: a select error or a quit command. */
  predicate Stops(sel: SelectResult) {
    sel.SelectFailed? || (sel.Received? && |sel.datagram| > 0 && sel.datagram[0] == TAG_QUIT)
  }

  /** A pending datagram that fits the receive buffer and whose command stays in bounds. */
  predicate Acceptable(sel: SelectResult) {
    sel.Received? ==> |sel.datagram| <= RESPONSE_SIZE && Admissible(ReceiveBuffer(sel.datagram))
  }

  /**
   * How many iterations the loop runs over the inputs `events`: through the first
   * input that stops it, or through all of them.
   */
  function Iterations(events: seq<SelectResult>): (n: nat)
    ensures n <= |events|
    ensures forall k :: 0 <= k < n - 1 ==> !Stops(events[k])
    ensures n < |events| ==> 0 < n && Stops(events[n - 1])
  {
    if events == [] then 0
    else if Stops(events[0]) then 1
    else 1 + Iterations(events[1..])
  }

  /** What one iteration leaves behind: the settings, the staging buffer and the overlay source. */
  datatype LoopState = LoopState(settings: Settings, staging: seq<Byte>, overlay: Option<seq<Byte>>)

  /**
   * The state after one iteration handles `sel`: a select error clears the running
   * flag, nothing pending changes nothing, and a datagram's command is carried out
   * on the zero-padded receive buffer.
   */
  function StepState(st: LoopState, sel: SelectResult): (st': LoopState)
    requires |st.staging| == STAGING_SIZE && Acceptable(sel)
    ensures |st'.staging| == STAGING_SIZE
    ensures st'.settings.running == (st.settings.running && !Stops(sel))
  {
    match sel
    case SelectFailed => st.(settings := st.settings.(running := false))
    case NothingPending => st
    case Received(datagram) =>
      var r := ReceiveBuffer(datagram);
      var staging := NextStaging(st.staging, r);
      LoopState(NextSettings(st.settings, r), staging, NextOverlay(st.overlay, staging, r))
  }

  /** The state after the iterations that handle `events`, first to last. */
  function Replay(st: LoopState, events: seq<SelectResult>): (st': LoopState)
    requires |st.staging| == STAGING_SIZE
    requires forall k :: 0 <= k < |events| ==> Acceptable(events[k])
    ensures |st'.staging| == STAGING_SIZE
    ensures st'.settings.running == (st.settings.running && forall k :: 0 <= k < |events| ==> !Stops(events[k]))
  {
    if events == [] then st
    else StepState(Replay(st, events[..|events| - 1]), events[|events| - 1])
  }

  class Application {
    var overlayMode: bool
    var brightness: Byte
    var contrast: Byte
    var applicationRunning: bool
    /** The staging buffer chunks are copied into. */
    var overlayImageData: array<Byte>
    /** The receive buffer. */
    var response: array<Byte>
    /** The overlay source: None while it is still the image loaded at start-up. */
    var overlayImage: Option<seq<Byte>>

    ghost predicate Valid()
      reads this
    {
      overlayImageData.Length == STAGING_SIZE && response.Length == RESPONSE_SIZE &&
      overlayImageData != response
    }

    /** Every byte of the receive buffer is zero. */
    ghost predicate ResponseCleared()
      reads this, response
    {
      forall i :: 0 <= i < response.Length ==> response[i] == 0
    }

    function CurrentSettings(): Settings
      reads this
    {
      Settings(overlayMode, brightness, contrast, applicationRunning)
    }

    ghost function State(): LoopState
      reads this, overlayImageData
    {
      LoopState(CurrentSettings(), overlayImageData[..], overlayImage)
    }

    /** The initial state: standard mode, brightness and contrast 50, both buffers zero. */
    constructor ()
      ensures Valid() && ResponseCleared() && fresh(overlayImageData) && fresh(response)
      ensures CurrentSettings() == Settings(false, 50, 50, true)
      ensures overlayImageData[..] == Zeros(STAGING_SIZE)
      ensures overlayImage.None?
    {
      overlayMode := false;
      brightness := 50;
      contrast := 50;
      applicationRunning := true;
      overlayImageData := new Byte[STAGING_SIZE](_ => 0);
      response := new Byte[RESPONSE_SIZE](_ => 0);
      overlayImage := None;
    }

    /** recv: the datagram's bytes overwrite the start of the receive buffer. */
    method Receive(datagram: seq<Byte>)
      requires Valid() && |datagram| <= RESPONSE_SIZE
      modifies response
      ensures response[..] == datagram + old(response[|datagram|..])
    {
      forall i | 0 <= i < |datagram| {
        response[i] := datagram[i];
      }
    }

    /** case 'V': copy the chunk into the staging buffer; a final chunk promotes the image. */
    method ImageChunk() returns (imageLength: Option<nat>)
      requires Valid() && Admissible(response[..]) && response[0] == TAG_IMAGE_CHUNK
      modifies this`overlayImage, overlayImageData
      ensures overlayImageData[..] == NextStaging(old(overlayImageData[..]), response[..])
      ensures overlayImage == NextOverlay(old(overlayImage), overlayImageData[..], response[..])
      ensures imageLength == ImageLength(response[..])
    {
      ghost var before := overlayImageData[..];
      var header := ParseChunkHeader(response[..]);
      var finalChunk, offset, length := header.finalChunk, header.offset, header.length;
      forall k | offset <= k < offset + length {
        overlayImageData[k] := response[CHUNK_HEADER_BYTES + k - offset];
      }
      ChunkCopy(before, overlayImageData[..], response[..]);
      imageLength := None;
      if finalChunk != 0 {
        imageLength := Some(offset + length);
        overlayImage := Some(overlayImageData[..FRAME_BYTES]);
      }
    }

    /** The switch on the tag byte: carry out the command in the receive buffer. */
    method Dispatch() returns (imageLength: Option<nat>)
      requires Valid() && Admissible(response[..])
      modifies this`overlayMode, this`brightness, this`contrast, this`applicationRunning,
               this`overlayImage, overlayImageData
      ensures CurrentSettings() == NextSettings(old(CurrentSettings()), response[..])
      ensures overlayImageData[..] == NextStaging(old(overlayImageData[..]), response[..])
      ensures overlayImage == NextOverlay(old(overlayImage), overlayImageData[..], response[..])
      ensures imageLength == ImageLength(response[..])
    {
      imageLength := None;
      var tag := response[0];
      if tag == TAG_IMAGE_CHUNK {
        imageLength := ImageChunk();
      } else if tag == TAG_ENABLE_OVERLAY {
        overlayMode := true;
      } else if tag == TAG_DISABLE_OVERLAY {
        overlayMode := false;
      } else if tag == TAG_BRIGHTNESS {
        brightness := response[1];
      } else if tag == TAG_CONTRAST {
        contrast := response[1];
      } else if tag == TAG_QUIT {
        applicationRunning := false;
      }
    }

    /** memset: zero the whole receive buffer. */
    method ClearResponse()
      requires Valid()
      modifies response
      ensures ResponseCleared()
    {
      forall i | 0 <= i < response.Length {
        response[i] := 0;
      }
    }

    /**
     * One iteration's datagram handling: a select error stops the loop; a pending
     * datagram is received, carried out and cleared away; otherwise nothing happens.
     */
    method Step(sel: SelectResult) returns (imageLength: Option<nat>)
      requires Valid() && ResponseCleared() && Acceptable(sel)
      modifies this`overlayMode, this`brightness, this`contrast, this`applicationRunning,
               this`overlayImage, overlayImageData, response
      ensures Valid() && ResponseCleared()
      ensures applicationRunning == (old(applicationRunning) && !Stops(sel))
      ensures sel.Received? ==>
        var r := ReceiveBuffer(sel.datagram);
        && CurrentSettings() == NextSettings(old(CurrentSettings()), r)
        && overlayImageData[..] == NextStaging(old(overlayImageData[..]), r)
        && overlayImage == NextOverlay(old(overlayImage), overlayImageData[..], r)
        && imageLength == ImageLength(r)
      ensures sel.SelectFailed? ==>
        CurrentSettings() == old(CurrentSettings()).(running := false)
      ensures !sel.Received? ==>
        && overlayImageData[..] == old(overlayImageData[..]) && overlayImage == old(overlayImage)
        && imageLength.None?
      ensures sel.NothingPending? ==> CurrentSettings() == old(CurrentSettings())
    {
      imageLength := None;
      if sel.SelectFailed? {
        applicationRunning := false;
      }
      if sel.Received? {
        Receive(sel.datagram);
        assert response[..] == ReceiveBuffer(sel.datagram);
        imageLength := Dispatch();
        ClearResponse();
      }
    }

    /**
     * The `while (application_running)` loop over the inputs `events`, one per
     * iteration; the capture and display half of each iteration is not part of this
     * model. Returns how many iterations ran.
     */
    method Run(events: seq<SelectResult>) returns (iterations: nat)
      requires Valid() && ResponseCleared() && applicationRunning
      requires forall k :: 0 <= k < |events| ==> Acceptable(events[k])
      modifies this`overlayMode, this`brightness, this`contrast, this`applicationRunning,
               this`overlayImage, overlayImageData, response
      ensures Valid() && ResponseCleared()
      ensures iterations == Iterations(events)
      ensures applicationRunning == forall k :: 0 <= k < iterations ==> !Stops(events[k])
      ensures State() == Replay(old(State()), events[..iterations])
    {
      iterations := 0;
      while applicationRunning && iterations < |events|
        invariant Valid() && ResponseCleared()
        invariant 0 <= iterations <= |events|
        invariant applicationRunning == forall k :: 0 <= k < iterations ==> !Stops(events[k])
        invariant applicationRunning ==> Iterations(events) == iterations + Iterations(events[iterations..])
        invariant !applicationRunning ==> Iterations(events) == iterations
        invariant State() == Replay(old(State()), events[..iterations])
      {
        assert events[iterations..][0] == events[iterations];
        assert events[iterations..][1..] == events[iterations + 1..];
        ghost var before := State();
        var _ := Step(events[iterations]);
        assert State() == StepState(before, events[iterations]);
        assert events[..iterations + 1][..iterations] == events[..iterations];
        iterations := iterations + 1;
      }
    }
  }
}
