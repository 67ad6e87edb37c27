/**
 * The command datagrams the display application accepts: a tag byte, then a
 * tag-specific payload. A 'V' datagram carries one chunk of a replacement overlay image
 * behind a 10-byte header:
 *
 *   byte 0     'V'
 *   byte 1     final-chunk flag (non-zero on the last chunk)
 *   bytes 2-5  byte offset of the chunk in the staging buffer, little-endian
 *   bytes 6-9  chunk length, little-endian
 *   bytes 10-  the chunk's bytes
 *
 * The functions here give the meaning of one datagram, read from the zero-padded
 * receive buffer it lands in.
 */
module Protocol {
  import opened Types

  /** Size of the receive buffer, and so the longest datagram read. */
  const RESPONSE_SIZE: nat := 16536
  /** Size of the staging buffer the chunks are assembled in. */
  const STAGING_SIZE: nat := 2000000
  const CHUNK_HEADER_BYTES: nat := 10

  const TAG_IMAGE_CHUNK: Byte := 'V' as int
  const TAG_ENABLE_OVERLAY: Byte := 'E' as int
  const TAG_DISABLE_OVERLAY: Byte := 'D' as int
  const TAG_BRIGHTNESS: Byte := 'B' as int
  const TAG_CONTRAST: Byte := 'C' as int
  const TAG_QUIT: Byte := 'Q' as int

  predicate IsKnownTag(tag: Byte) {
    tag in {TAG_IMAGE_CHUNK, TAG_ENABLE_OVERLAY, TAG_DISABLE_OVERLAY, TAG_BRIGHTNESS, TAG_CONTRAST, TAG_QUIT}
  }

  /** The unsigned 32-bit value of four little-endian bytes. */
  function DecodeLE32(b: seq<Byte>): (v: nat)
    requires |b| == 4
    ensures v < 0x1_0000_0000
  {
    b[0] as int + 0x100 * b[1] as int + 0x1_0000 * b[2] as int + 0x100_0000 * b[3] as int
  }

  /** The four little-endian bytes of an unsigned 32-bit value. */
  function EncodeLE32(v: nat): (b: seq<Byte>)
    requires v < 0x1_0000_0000
    ensures |b| == 4 && DecodeLE32(b) == v
  {
    var b := [v % 0x100, v / 0x100 % 0x100, v / 0x1_0000 % 0x100, v / 0x100_0000];
    assert v / 0x100 == v / 0x100 % 0x100 + 0x100 * (v / 0x1_0000);
    assert v / 0x1_0000 == v / 0x1_0000 % 0x100 + 0x100 * (v / 0x100_0000);
    b
  }

  /** Decoding loses nothing: four bytes are the encoding of their value. */
  lemma EncodeDecodeLE32(b: seq<Byte>)
    requires |b| == 4
    ensures EncodeLE32(DecodeLE32(b)) == b
  {
    var v := DecodeLE32(b);
    assert v / 0x100 == b[1] as int + 0x100 * b[2] as int + 0x1_0000 * b[3] as int;
    assert v / 0x1_0000 == b[2] as int + 0x100 * b[3] as int;
    assert v / 0x100_0000 == b[3];
  }

  /** The header fields of a 'V' datagram. */
  datatype ChunkHeader = ChunkHeader(finalChunk: Byte, offset: nat, length: nat)

  /** Decode bytes 1 to 9 of a 'V' datagram. */
  function ParseChunkHeader(r: seq<Byte>): (h: ChunkHeader)
    requires |r| >= CHUNK_HEADER_BYTES
    ensures h.finalChunk == r[1]
    ensures h.offset < 0x1_0000_0000 && h.length < 0x1_0000_0000
  {
    ChunkHeader(r[1], DecodeLE32(r[2..6]), DecodeLE32(r[6..10]))
  }

  /** Bytes 2-5 and 6-9 are exactly the little-endian encodings of the decoded offset and length. */
  lemma ChunkHeaderRoundTrip(r: seq<Byte>)
    requires |r| >= CHUNK_HEADER_BYTES
    ensures r[2..6] == EncodeLE32(ParseChunkHeader(r).offset)
    ensures r[6..10] == EncodeLE32(ParseChunkHeader(r).length)
  {
    EncodeDecodeLE32(r[2..6]);
    EncodeDecodeLE32(r[6..10]);
  }

  /** A chunk whose copy stays inside both the receive buffer and the staging buffer. */
  predicate ChunkFits(r: seq<Byte>)
    requires |r| >= CHUNK_HEADER_BYTES
  {
    var h := ParseChunkHeader(r);
    h.offset + h.length <= STAGING_SIZE && CHUNK_HEADER_BYTES + h.length <= |r|
  }

  /** A receive buffer whose command can be carried out without touching memory out of bounds. */
  predicate Admissible(r: seq<Byte>) {
    |r| == RESPONSE_SIZE && (r[0] == TAG_IMAGE_CHUNK ==> ChunkFits(r))
  }

  /** The receive buffer after a datagram lands in a cleared buffer. */
  function ReceiveBuffer(datagram: seq<Byte>): (r: seq<Byte>)
    requires |datagram| <= RESPONSE_SIZE
    ensures |r| == RESPONSE_SIZE
    ensures r[..|datagram|] == datagram
    ensures forall i :: |datagram| <= i < RESPONSE_SIZE ==> r[i] == 0
  {
    datagram + Zeros(RESPONSE_SIZE - |datagram|)
  }

  /** The chunk's bytes: the `length` bytes after the header. */
  function ChunkPayload(r: seq<Byte>): (p: seq<Byte>)
    requires |r| >= CHUNK_HEADER_BYTES && ChunkFits(r)
    ensures |p| == ParseChunkHeader(r).length
    ensures forall i :: 0 <= i < |p| ==> p[i] == r[CHUNK_HEADER_BYTES + i]
  {
    r[CHUNK_HEADER_BYTES..CHUNK_HEADER_BYTES + ParseChunkHeader(r).length]
  }

  /**
   * The staging buffer after copying `payload` to `offset`: the covered bytes come
   * from the payload, every other byte is as before.
   */
  function ApplyChunk(staging: seq<Byte>, payload: seq<Byte>, offset: nat): (s: seq<Byte>)
    requires offset + |payload| <= |staging|
    ensures |s| == |staging|
    ensures forall k :: 0 <= k < |s| ==>
      s[k] == if offset <= k < offset + |payload| then payload[k - offset] else staging[k]
  {
    staging[..offset] + payload + staging[offset + |payload|..]
  }

  /** Overlapping chunks: the later one wins where they overlap, no merge. */
  lemma OverlappingChunks(staging: seq<Byte>, first: seq<Byte>, at1: nat, second: seq<Byte>, at2: nat, k: nat)
    requires at1 + |first| <= |staging| && at2 + |second| <= |staging| && k < |staging|
    ensures ApplyChunk(ApplyChunk(staging, first, at1), second, at2)[k] ==
      if at2 <= k < at2 + |second| then second[k - at2]
      else if at1 <= k < at1 + |first| then first[k - at1]
      else staging[k]
  {
  }

  /** Two chunks that follow each other leave their concatenation at the start of the buffer. */
  lemma ConsecutiveChunks(staging: seq<Byte>, first: seq<Byte>, second: seq<Byte>)
    requires |first| + |second| <= |staging|
    ensures ApplyChunk(ApplyChunk(staging, first, 0), second, |first|)[..|first| + |second|] == first + second
  {
    var s := ApplyChunk(ApplyChunk(staging, first, 0), second, |first|);
    assert forall k :: 0 <= k < |first| + |second| ==> s[k] == (first + second)[k];
  }

  /**
   * A staging buffer that holds the chunk's bytes at the chunk's offsets and the old
   * bytes everywhere else is the one the 'V' command produces.
   */
  lemma ChunkCopy(before: seq<Byte>, after: seq<Byte>, r: seq<Byte>)
    requires |before| == STAGING_SIZE && |after| == STAGING_SIZE
    requires Admissible(r) && r[0] == TAG_IMAGE_CHUNK
    requires var h := ParseChunkHeader(r);
      && (forall k :: h.offset <= k < h.offset + h.length ==> after[k] == r[CHUNK_HEADER_BYTES + k - h.offset])
      && (forall k :: 0 <= k < STAGING_SIZE && !(h.offset <= k < h.offset + h.length) ==> after[k] == before[k])
    ensures after == NextStaging(before, r)
  {
    var h := ParseChunkHeader(r);
    var s := NextStaging(before, r);
    forall k | 0 <= k < STAGING_SIZE
      ensures after[k] == s[k]
    {
      if h.offset <= k < h.offset + h.length {
        assert ChunkPayload(r)[k - h.offset] == r[CHUNK_HEADER_BYTES + k - h.offset];
      }
    }
  }

  /** The settings the command datagrams change. */
  datatype Settings = Settings(overlayMode: bool, brightness: Byte, contrast: Byte, running: bool)

  /** The settings after the command in receive buffer `r`; an unknown tag changes nothing. */
  function NextSettings(s: Settings, r: seq<Byte>): Settings
    requires |r| >= 2
  {
    var tag := r[0];
    if tag == TAG_ENABLE_OVERLAY then s.(overlayMode := true)
    else if tag == TAG_DISABLE_OVERLAY then s.(overlayMode := false)
    else if tag == TAG_BRIGHTNESS then s.(brightness := r[1])
    else if tag == TAG_CONTRAST then s.(contrast := r[1])
    else if tag == TAG_QUIT then s.(running := false)
    else s
  }

  /** The staging buffer after the command in `r`: only a 'V' chunk writes it. */
  function NextStaging(staging: seq<Byte>, r: seq<Byte>): seq<Byte>
    requires |staging| == STAGING_SIZE && Admissible(r)
  {
    if r[0] == TAG_IMAGE_CHUNK then ApplyChunk(staging, ChunkPayload(r), ParseChunkHeader(r).offset)
    else staging
  }

  /** Whether `r` is the final chunk of an image transfer. */
  predicate CompletesImage(r: seq<Byte>)
    requires |r| >= 2
  {
    r[0] == TAG_IMAGE_CHUNK && r[1] != 0
  }

  /** The image length a final chunk reports: where its copy ends. */
  function ImageLength(r: seq<Byte>): (n: Option<nat>)
    requires Admissible(r)
    ensures n.Some? <==> CompletesImage(r)
    ensures n.Some? ==> n.value <= STAGING_SIZE
    ensures n.Some? ==> n.value == ParseChunkHeader(r).offset + |ChunkPayload(r)|
  {
    if CompletesImage(r) then Some(ParseChunkHeader(r).offset + ParseChunkHeader(r).length) else None
  }

  /** The overlay source after the command: the frame-sized prefix of the staging buffer on a final chunk. */
  function NextOverlay(overlay: Option<seq<Byte>>, staging': seq<Byte>, r: seq<Byte>): Option<seq<Byte>>
    requires |staging'| == STAGING_SIZE && |r| >= 2
  {
    if CompletesImage(r) then Some(staging'[..FRAME_BYTES]) else overlay
  }

  /** 'E' and 'D' set or clear the overlay mode and change no other setting. */
  lemma OverlayCommands(s: Settings, r: seq<Byte>)
    requires |r| >= 2 && (r[0] == TAG_ENABLE_OVERLAY || r[0] == TAG_DISABLE_OVERLAY)
    ensures NextSettings(s, r) == s.(overlayMode := r[0] == TAG_ENABLE_OVERLAY)
  {
  }

  /** 'B' and 'C' store byte 1 as the brightness or the contrast, and change no other setting. */
  lemma AdjustCommands(s: Settings, r: seq<Byte>)
    requires |r| >= 2
    ensures r[0] == TAG_BRIGHTNESS ==> NextSettings(s, r) == s.(brightness := r[1])
    ensures r[0] == TAG_CONTRAST ==> NextSettings(s, r) == s.(contrast := r[1])
  {
  }

  /** Only 'Q' stops the application. */
  lemma OnlyQuitStops(s: Settings, r: seq<Byte>)
    requires |r| >= 2
    ensures NextSettings(s, r).running == (s.running && r[0] != TAG_QUIT)
  {
  }

  /** A datagram with an unknown tag changes no state. */
  lemma UnknownTagIsIgnored(s: Settings, staging: seq<Byte>, overlay: Option<seq<Byte>>, r: seq<Byte>)
    requires |staging| == STAGING_SIZE && Admissible(r) && !IsKnownTag(r[0])
    ensures NextSettings(s, r) == s
    ensures NextStaging(staging, r) == staging
    ensures NextOverlay(overlay, NextStaging(staging, r), r) == overlay
    ensures ImageLength(r).None?
  {
  }

  /**
   * A 'V' chunk copies its payload to its offset and leaves every other staging byte
   * alone; a final chunk makes the first frame's worth of the result the overlay
   * source, whatever earlier chunks covered.
   */
  lemma ChunkCommand(staging: seq<Byte>, overlay: Option<seq<Byte>>, r: seq<Byte>)
    requires |staging| == STAGING_SIZE && Admissible(r) && r[0] == TAG_IMAGE_CHUNK
    ensures var h := ParseChunkHeader(r);
      var s := NextStaging(staging, r);
      |s| == STAGING_SIZE &&
      (forall k :: h.offset <= k < h.offset + h.length ==> s[k] == r[CHUNK_HEADER_BYTES + k - h.offset]) &&
      (forall k :: 0 <= k < STAGING_SIZE && !(h.offset <= k < h.offset + h.length) ==> s[k] == staging[k]) &&
      (r[1] != 0 ==> NextOverlay(overlay, s, r) == Some(s[..FRAME_BYTES])) &&
      (r[1] == 0 ==> NextOverlay(overlay, s, r) == overlay)
  {
    var h := ParseChunkHeader(r);
    var s := NextStaging(staging, r);
    forall k | h.offset <= k < h.offset + h.length
      ensures s[k] == r[CHUNK_HEADER_BYTES + k - h.offset]
    {
      assert ChunkPayload(r)[k - h.offset] == r[CHUNK_HEADER_BYTES + k - h.offset];
    }
  }
}
