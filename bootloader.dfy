/** The receiving side, bootloader/src/bootloader.c: the 6-byte metadata
    layout, the constant-time MAC comparison, the capped UART read, the
    frame-by-frame acceptance logic of `load_firmware` over the global
    `data` buffer, and `program_flash` with its packing of the last flash
    word.

    The device is a class whose fields are the state the C code reads and
    updates: the bytes still to arrive on UART1, the bytes it has written
    back, the flash contents, and the two global buffers `data` and
    `fw_release_message`.  HMAC-SHA256 and AES-GCM are the uninterpreted
    primitives of module Crypto, applied to the keys of `secrets.h`. */
module Bootloader {
  import opened Bytes
  import opened Crypto
  import opened Wrappers

  // Firmware constants (lines 37-44).
  const MetadataBase := 0xFC00
  const ReleaseBase := 0xF800
  const FwBase := 0x10000
  const FrMetadataSize := 6
  const FwMetadataSize := 6
  const FwMaxSize := 0x7800
  const ReleaseMaxSize := 0x400
  const DataSize := FwMaxSize + FwMetadataSize + ReleaseMaxSize

  // Flash constants (lines 48-49); the LM3S6965 has 256 KiB of flash.
  const FlashPageSize := 1024
  const FlashWriteSize := 4
  const FlashSize := 0x40000

  const HmacSize := 32
  const TagSize := 16
  const IvSize := 16

  // Protocol constants (lines 58-59).
  const Ok: byte := 0x00
  const Error: byte := 0x01

  // ---------------------------------------------------------------------
  // Metadata bytes.  Both the firmware metadata (version, size, release
  // message size) and a frame header (index, length, version) are three
  // unsigned 16-bit fields, least significant byte first.

  lemma WidenByte(b: byte)
    ensures (b as bv16) as int == b
  {
    ByteRoundTrip(b);
    assert b as bv16 == (b as bv8) as bv16;
  }

  lemma SplitHalves(w: bv16)
    ensures w as int == (w >> 8) as int * 0x100 + (w & 0xFF) as int
  {
  }

  lemma Halves(lo: bv16, hi: bv16)
    requires lo < 0x100 && hi < 0x100
    ensures (lo | (hi << 8)) >> 8 == hi && (lo | (hi << 8)) & 0xFF == lo
  {
  }

  lemma HalvesValue(w: bv16, lo: int, hi: int)
    requires (w >> 8) as int == hi && (w & 0xFF) as int == lo
    ensures w as int == lo + 0x100 * hi
  {
    SplitHalves(w);
  }

  /** `(uint16_t) lo | (uint16_t) hi << 8` (lines 325-329, 366-370): the
      shifted high byte and the low byte do not overlap, and nothing is
      lost in 16 bits. */
  function DecodeU16(lo: byte, hi: byte): (x: u16)
    ensures x == lo + 0x100 * hi
    ensures x == U16At([lo, hi], 0)
  {
    var w := (lo as bv16) | ((hi as bv16) << 8);
    Halves(lo as bv16, hi as bv16);
    WidenByte(lo);
    WidenByte(hi);
    HalvesValue(w, lo, hi);
    w as int
  }

  datatype Metadata = Metadata(version: u16, size: u16, msgSize: u16)
  datatype FrameHeader = FrameHeader(index: u16, length: u16, version: u16)

  function DecodeMetadata(m: Bytes): (d: Metadata)
    requires |m| == FwMetadataSize
    ensures d.version == U16At(m, 0) && d.size == U16At(m, 2) && d.msgSize == U16At(m, 4)
  {
    Metadata(DecodeU16(m[0], m[1]), DecodeU16(m[2], m[3]), DecodeU16(m[4], m[5]))
  }

  function DecodeFrameHeader(m: Bytes): (h: FrameHeader)
    requires |m| == FrMetadataSize
    ensures h.index == U16At(m, 0) && h.length == U16At(m, 2) && h.version == U16At(m, 4)
  {
    FrameHeader(DecodeU16(m[0], m[1]), DecodeU16(m[2], m[3]), DecodeU16(m[4], m[5]))
  }

  /** `(uint8_t) x`: conversion to an unsigned char keeps the value modulo 2^8. */
  function LowByte(x: int): byte
  {
    x % 0x100
  }

  /** `(uint16_t) x >> 8`: the value modulo 2^16, shifted right by one byte. */
  function HighByte(x: int): byte
  {
    (x % 0x1_0000) / 0x100
  }

  lemma LowHigh(x: int)
    ensures LowByte(x) + 0x100 * HighByte(x) == x % 0x1_0000
  {
    var y := x % 0x1_0000;
    var q := x / 0x1_0000;
    assert x == 0x1_0000 * q + y;
    assert x == 0x100 * (0x100 * q) + y;
    assert x % 0x100 == y % 0x100;
    assert y == 0x100 * (y / 0x100) + y % 0x100;
  }

  /** The metadata array of `load_initial_firmware` (lines 128-133). */
  function EncodeMetadata(version: int, size: int, msgSize: int): (m: Bytes)
    ensures |m| == FwMetadataSize
    ensures DecodeMetadata(m) == Metadata(version % 0x1_0000, size % 0x1_0000, msgSize % 0x1_0000)
  {
    LowHigh(version);
    LowHigh(size);
    LowHigh(msgSize);
    [LowByte(version), HighByte(version), LowByte(size), HighByte(size), LowByte(msgSize), HighByte(msgSize)]
  }

  /** Version and message size of the firmware that ships inside the bootloader. */
  const InitialVersion := 2
  const InitialMessageSize := 36

  /** "This is the initial release message." as the bytes
      `(unsigned char *) msg` points at: its ASCII codes, one per character,
      without the terminating zero (only `msg_size` bytes are flashed). */
  const InitialMessageBytes: Bytes :=
    [0x54, 0x68, 0x69, 0x73, 0x20, 0x69, 0x73, 0x20, 0x74, 0x68, 0x65, 0x20,
     0x69, 0x6E, 0x69, 0x74, 0x69, 0x61, 0x6C, 0x20, 0x72, 0x65, 0x6C, 0x65,
     0x61, 0x73, 0x65, 0x20, 0x6D, 0x65, 0x73, 0x73, 0x61, 0x67, 0x65, 0x2E]

  /** The version recorded in flash, read back with the same byte order (line 336). */
  function StoredVersion(flash: Bytes): u16
    requires MetadataBase + 2 <= |flash|
  {
    DecodeU16(flash[MetadataBase], flash[MetadataBase + 1])
  }

  // ---------------------------------------------------------------------
  // Constant-time MAC comparison (lines 266-274).

  lemma XorZero(a: byte, b: byte)
    ensures (a as bv8) ^ (b as bv8) == 0 <==> a == b
  {
    ByteRoundTrip(a);
    ByteRoundTrip(b);
    var x, y := a as bv8, b as bv8;
    assert x ^ y == 0 <==> x == y;
  }

  /** `check |= hmac[i] ^ out[i]` over all 32 bytes: the accumulated value
      is zero exactly when the received MAC equals the computed one, and
      every byte is looked at whatever the earlier ones were. */
  method CompareDigests(received: Bytes, computed: Bytes) returns (check: bv8)
    requires |received| == HmacSize && |computed| == HmacSize
    ensures check == 0 <==> received == computed
  {
    check := 0;
    for i := 0 to HmacSize
      invariant check == 0 <==> received[..i] == computed[..i]
    {
      XorZero(received[i], computed[i]);
      assert received[..i + 1] == received[..i] + [received[i]];
      assert computed[..i + 1] == computed[..i] + [computed[i]];
      check := check | ((received[i] as bv8) ^ (computed[i] as bv8));
    }
    assert received[..HmacSize] == received && computed[..HmacSize] == computed;
  }

  // ---------------------------------------------------------------------
  // Flash.  An erase sets a 1 KiB page to 0xFF; a program stores whole
  // 4-byte words.  The memory seen from the CPU is little-endian.

  /** What a page holds after `program_flash` wrote `src` into it. */
  function PageImage(src: Bytes): (page: Bytes)
    requires |src| <= FlashPageSize
    ensures |page| == FlashPageSize && page[..|src|] == src
    ensures forall i :: |src| <= i < FlashPageSize ==> page[i] == 0xFF
  {
    src + Repeat(FlashPageSize - |src|, 0xFF)
  }

  /** Byte `j` of a 32-bit word, as a mask of the word. */
  function Lane(w: bv32, j: nat): bv32
    requires j < 4
  {
    if j == 0 then w & 0xFF
    else if j == 1 then (w >> 8) & 0xFF
    else if j == 2 then (w >> 16) & 0xFF
    else w >> 24
  }

  lemma LaneShiftIn(w: bv32, b: bv32, j: nat)
    requires j < 4 && b < 0x100
    ensures Lane((w >> 8) | (b << 24), j) == if j == 3 then b else Lane(w, j + 1)
  {
  }

  lemma LaneOfZero(j: nat)
    requires j < 4
    ensures Lane(0, j) == 0
  {
  }

  lemma WidenWord(b: byte)
    ensures (b as bv32) < 0x100 && ((b as bv32) as bv8) as int == b
  {
    assert (b as bv32) as bv8 == b as bv8;
    ByteRoundTrip(b);
  }

  /** Byte `j` of `w` as it lies in little-endian memory. */
  function LaneByte(w: bv32, j: nat): byte
    requires j < 4
  {
    assert Lane(w, j) < 0x100;
    (Lane(w, j) as bv8) as int
  }

  /** The four bytes `FlashProgram(&word, addr, 4)` stores. */
  function WordBytes(w: bv32): Bytes
  {
    [LaneByte(w, 0), LaneByte(w, 1), LaneByte(w, 2), LaneByte(w, 3)]
  }

  /** What lane `j` holds once the bytes `pushed` went through the shift
      register: they fill the top lanes in order, the lanes below are 0. */
  function Expected(pushed: Bytes, j: nat): bv32
    requires |pushed| <= 4 && j < 4
  {
    if j < 4 - |pushed| then 0 else pushed[j - (4 - |pushed|)] as bv32
  }

  predicate Shifted(w: bv32, pushed: Bytes)
    requires |pushed| <= 4
  {
    && Lane(w, 0) == Expected(pushed, 0)
    && Lane(w, 1) == Expected(pushed, 1)
    && Lane(w, 2) == Expected(pushed, 2)
    && Lane(w, 3) == Expected(pushed, 3)
  }

  lemma ExpectedStep(pushed: Bytes, b: byte, j: nat)
    requires |pushed| < 4 && j < 4
    ensures Expected(pushed + [b], j) == if j == 3 then b as bv32 else Expected(pushed, j + 1)
  {
  }

  lemma ShiftStepLane(w: bv32, pushed: Bytes, b: byte, j: nat)
    requires |pushed| < 4 && j < 4
    requires j < 3 ==> Lane(w, j + 1) == Expected(pushed, j + 1)
    ensures Lane((w >> 8) | ((b as bv32) << 24), j) == Expected(pushed + [b], j)
  {
    var b32 := b as bv32;
    WidenWord(b);
    var w' := (w >> 8) | (b32 << 24);
    LaneShiftIn(w, b32, j);
    ExpectedStep(pushed, b, j);
    if j == 3 {
      assert Lane(w', j) == b32;
    } else {
      assert Lane(w', j) == Lane(w, j + 1);
    }
  }

  lemma ShiftStep(w: bv32, pushed: Bytes, b: byte)
    requires |pushed| < 4 && Shifted(w, pushed)
    ensures Shifted((w >> 8) | ((b as bv32) << 24), pushed + [b])
  {
    ShiftStepLane(w, pushed, b, 0);
    ShiftStepLane(w, pushed, b, 1);
    ShiftStepLane(w, pushed, b, 2);
    ShiftStepLane(w, pushed, b, 3);
  }

  lemma ShiftedBytes(w: bv32, pushed: Bytes)
    requires |pushed| == 4 && Shifted(w, pushed)
    ensures WordBytes(w) == pushed
  {
    WidenWord(pushed[0]);
    WidenWord(pushed[1]);
    WidenWord(pushed[2]);
    WidenWord(pushed[3]);
  }

  /** `(word >> 8) | 0xFF000000` is the shift with a 0xFF byte. */
  lemma ShiftFill(w: bv32, pushed: Bytes)
    requires |pushed| < 4 && Shifted(w, pushed)
    ensures Shifted((w >> 8) | 0xFF000000, pushed + [0xFF])
  {
    ShiftStep(w, pushed, 0xFF);
    assert ((0xFF as byte) as bv32) << 24 == 0xFF000000;
  }

  lemma ShiftedEmpty()
    ensures Shifted(0, [])
  {
    LaneOfZero(0);
    LaneOfZero(1);
    LaneOfZero(2);
    LaneOfZero(3);
  }

  lemma ShiftTailStep(w: bv32, data: Bytes, from: nat, i: nat)
    requires from + i < |data| && i < 4 && Shifted(w, data[from..from + i])
    ensures Shifted((w >> 8) | ((data[from + i] as bv32) << 24), data[from..from + i + 1])
  {
    ShiftStep(w, data[from..from + i], data[from + i]);
    assert data[from..from + i] + [data[from + i]] == data[from..from + i + 1];
  }

  lemma ShiftFillStep(w: bv32, tail: Bytes, n: nat)
    requires |tail| + n < 4 && Shifted(w, tail + Repeat(n, 0xFF))
    ensures Shifted((w >> 8) | 0xFF000000, tail + Repeat(n + 1, 0xFF))
  {
    ShiftFill(w, tail + Repeat(n, 0xFF));
    assert tail + Repeat(n, 0xFF) + [0xFF] == tail + Repeat(n + 1, 0xFF);
  }

  lemma ShiftedTail(w: bv32, data: Bytes, from: nat)
    requires from <= |data| && |data| - from <= 4 && Shifted(w, data[from..from + (|data| - from)])
    ensures Shifted(w, data[from..] + Repeat(0, 0xFF))
  {
    assert data[from..from + (|data| - from)] == data[from..] + Repeat(0, 0xFF);
  }

  lemma PackedWord(w: bv32, data: Bytes, from: nat, n: nat)
    requires from <= |data| && n == 4 - (|data| - from) && |data| - from <= 4
    requires Shifted(w, data[from..] + Repeat(n, 0xFF))
    ensures WordBytes(w) == data[from..] + Repeat(FlashWriteSize - (|data| - from), 0xFF)
  {
    ShiftedBytes(w, data[from..] + Repeat(n, 0xFF));
  }

  /** Lines 532-539: the last `rem` bytes of `data` go through a shift
      register from the most significant byte down, then 0xFF bytes fill
      the word up.  In little-endian memory the word holds the remaining
      bytes in positions 0..rem-1 and 0xFF after them. */
  method PackTailWord(data: Bytes, numFullBytes: nat) returns (word: bv32)
    requires numFullBytes < |data| && |data| - numFullBytes < FlashWriteSize
    ensures WordBytes(word) == data[numFullBytes..] + Repeat(FlashWriteSize - (|data| - numFullBytes), 0xFF)
  {
    var rem := |data| - numFullBytes;
    word := 0;
    ShiftedEmpty();
    var i := 0;
    while i < rem
      invariant 0 <= i <= rem
      invariant Shifted(word, data[numFullBytes..numFullBytes + i])
    {
      ShiftTailStep(word, data, numFullBytes, i);
      word := (word >> 8) | ((data[numFullBytes + i] as bv32) << 24);
      i := i + 1;
    }
    ShiftedTail(word, data, numFullBytes);
    while i < 4
      invariant rem <= i <= 4
      invariant Shifted(word, data[numFullBytes..] + Repeat(i - rem, 0xFF))
    {
      ShiftFillStep(word, data[numFullBytes..], i - rem);
      word := (word >> 8) | 0xFF000000;
      i := i + 1;
    }
    PackedWord(word, data, numFullBytes, i - rem);
  }

  /** The page image `program_flash` leaves when it programs the whole
      words of `src` and then the packed last word over an erased page. */
  lemma PageAssembly(f: Bytes, at: nat, src: Bytes, numFullBytes: nat, word: Bytes)
    requires |src| <= FlashPageSize && at + FlashPageSize <= |f|
    requires numFullBytes <= |src| && |src| - numFullBytes < FlashWriteSize && numFullBytes % FlashWriteSize == 0
    requires numFullBytes < |src| ==> word == src[numFullBytes..] + Repeat(FlashWriteSize - (|src| - numFullBytes), 0xFF)
    requires numFullBytes == |src| ==> word == []
    ensures Splice(Splice(Splice(f, at, Repeat(FlashPageSize, 0xFF)), at, src[..numFullBytes]), at + numFullBytes, word)
      == Splice(f, at, PageImage(src))
  {
    var erased := Repeat(FlashPageSize, 0xFF);
    SpliceInside(f, at, erased, 0, src[..numFullBytes]);
    var y := src[..numFullBytes] + erased[numFullBytes..];
    assert erased[..0] == [];
    assert [] + src[..numFullBytes] + erased[0 + numFullBytes..] == y;
    assert numFullBytes + |word| <= FlashPageSize;
    SpliceInside(f, at, y, numFullBytes, word);
    WordOverErased(src, numFullBytes, word);
  }

  /** The whole words, then the packed last word, then erased bytes. */
  lemma WordOverErased(src: Bytes, numFullBytes: nat, word: Bytes)
    requires |src| <= FlashPageSize
    requires numFullBytes <= |src| && |src| - numFullBytes < FlashWriteSize && numFullBytes % FlashWriteSize == 0
    requires numFullBytes < |src| ==> word == src[numFullBytes..] + Repeat(FlashWriteSize - (|src| - numFullBytes), 0xFF)
    requires numFullBytes == |src| ==> word == []
    ensures var y := src[..numFullBytes] + Repeat(FlashPageSize, 0xFF)[numFullBytes..];
      numFullBytes + |word| <= FlashPageSize
      && y[..numFullBytes] + word + y[numFullBytes + |word|..] == PageImage(src)
  {
    var y := src[..numFullBytes] + Repeat(FlashPageSize, 0xFF)[numFullBytes..];
    var z := y[..numFullBytes] + word + y[numFullBytes + |word|..];
    var image := PageImage(src);
    assert |z| == FlashPageSize;
    forall i | 0 <= i < FlashPageSize
      ensures z[i] == image[i]
    {
      if i < numFullBytes {
        assert z[i] == src[i];
      } else if i < numFullBytes + |word| {
        assert z[i] == word[i - numFullBytes];
      } else {
        assert z[i] == 0xFF;
      }
    }
  }

  /** The keys `secrets.h` compiles into the bootloader. */
  datatype Secrets = Secrets(prim: Primitives, aesKey: Bytes, hmacKey: Bytes)

  // ---------------------------------------------------------------------
  // What `load_firmware` does with the bytes arriving on UART1, as
  // functions of those bytes.  Every stop is either a reset after ERROR
  // (`send_err`) or a blocking read that no byte ever satisfies.

  datatype Halt = Reset | Blocked

  function Min(a: int, b: int): int
  {
    if a < b then a else b
  }

  /** `sha_hmac`: the next 32 bytes must be the MAC of `msg`. */
  function VerifyMac(k: Secrets, msg: Bytes, line: Bytes): (h: Option<Halt>)
    ensures h == None <==> |line| >= HmacSize && line[..HmacSize] == Hmac(k.prim, k.hmacKey, msg)
  {
    if |line| < HmacSize then Some(Blocked)
    else if line[..HmacSize] != Hmac(k.prim, k.hmacKey, msg) then Some(Reset)
    else None
  }

  /** `frame_number` (line 332), the index of the last frame: ceil(size / 1024) - 1,
      and 0 for an empty firmware. */
  function FrameNumber(size: nat): (n: nat)
    ensures size > 0 ==> n * FlashPageSize < size <= (n + 1) * FlashPageSize
    ensures size <= FwMaxSize ==> n < FwMaxSize / FlashPageSize
  {
    if size == 0 then 0 else CeilDiv(size, FlashPageSize) - 1
  }

  /** `frame_number` as a compiler that converts the double through a
      signed integer computes it: `ceil(size / 1024) - 1` taken modulo 2^16.
      For size 0 that converts -1.0 to `uint16_t`, which the C standard
      leaves undefined. */
  function WrappedFrameNumber(size: u16): (n: nat)
    ensures n < 0x1_0000
    ensures size > 0 ==> n == FrameNumber(size)
    ensures size == 0 ==> n == 0xFFFF
  {
    var q := CeilDiv(size, FlashPageSize);
    assert q <= 64 by {
      assert 64 * FlashPageSize >= size;
    }
    (q - 1) % 0x1_0000
  }

  /** The frame loop's counters and the buffer it fills. */
  datatype FrameState = FrameState(indexCheck: nat, received: nat, data: Bytes)

  datatype FrameOutcome =
    | FrameHalted(halt: Halt)
    | FrameAccepted(next: FrameState, index: nat, rest: Bytes)

  /** One turn of the frame loop (lines 359-421): the header and its MAC first. */
  function FrameStep(k: Secrets, d: Metadata, st: FrameState, line: Bytes): (r: FrameOutcome)
    requires d.size <= FwMaxSize && st.received <= d.size && |st.data| == DataSize
    ensures r.FrameAccepted? ==>
      && r.index == st.indexCheck && r.index <= FrameNumber(d.size)
      && r.next.indexCheck == st.indexCheck + 1
      && st.received <= r.next.received <= d.size && |r.next.data| == DataSize
  {
    if |line| < FrMetadataSize then FrameHalted(Blocked)
    else
      var header := line[..FrMetadataSize];
      match VerifyMac(k, header, line[FrMetadataSize..])
      case Some(h) => FrameHalted(h)
      case None => FrameBody(k, d, st, header, line[FrMetadataSize + HmacSize..])
  }

  /** The header checks of lines 373-388, in their C order, against the
      last frame number `last`: the expected index no greater than `last`,
      at most 1024 bytes, and the update's version, which must not be 1. */
  predicate HeaderPasses(d: Metadata, indexCheck: nat, f: FrameHeader, last: nat)
  {
    && f.index == indexCheck && f.index <= last
    && f.length <= FlashPageSize
    && d.version == f.version && f.version != 1
  }

  /** Lines 366-417: a frame whose header passes the checks against
      `frame_number` goes on to its payload; any other is answered with a
      reset. */
  function FrameBody(k: Secrets, d: Metadata, st: FrameState, header: Bytes, body: Bytes): (r: FrameOutcome)
    requires |header| == FrMetadataSize
    requires d.size <= FwMaxSize && st.received <= d.size && |st.data| == DataSize
    ensures r.FrameAccepted? ==>
      && r.index == st.indexCheck && r.index <= FrameNumber(d.size)
      && r.next.indexCheck == st.indexCheck + 1
      && st.received <= r.next.received <= d.size && |r.next.data| == DataSize
  {
    var f := DecodeFrameHeader(header);
    if !HeaderPasses(d, st.indexCheck, f, FrameNumber(d.size)) then FrameHalted(Reset)
    else FramePayload(k, d, st, header, f.length, body)
  }

  /** Lines 390-417: the payload bytes, counted against `size`, stored at
      `1024 * index` with the header after them, and the MAC over both. */
  function FramePayload(k: Secrets, d: Metadata, st: FrameState, header: Bytes, length: nat, body: Bytes): (r: FrameOutcome)
    requires |header| == FrMetadataSize && length <= FlashPageSize
    requires d.size <= FwMaxSize && st.received <= d.size && |st.data| == DataSize
    requires st.indexCheck <= FrameNumber(d.size)
    ensures r.FrameAccepted? ==>
      && r.index == st.indexCheck
      && r.next.indexCheck == st.indexCheck + 1
      && st.received <= r.next.received <= d.size && |r.next.data| == DataSize
  {
    var room := d.size - st.received;
    if length > room then
      // the byte after the `room` that fit pushes the count over `size`
      if |body| <= room then FrameHalted(Blocked) else FrameHalted(Reset)
    else if |body| < length then FrameHalted(Blocked)
    else
      var payload := body[..length];
      match VerifyMac(k, payload + header, body[length..])
      case Some(h) => FrameHalted(h)
      case None =>
        FrameAccepted(
          FrameState(st.indexCheck + 1, st.received + length,
                     Splice(st.data, FlashPageSize * st.indexCheck, payload + header)),
          st.indexCheck, body[length + HmacSize..])
  }

  datatype FramesOutcome =
    | FramesHalted(acks: nat, halt: Halt)
    | FramesDone(last: FrameState, rest: Bytes)

  /** The frame loop (lines 357-424): frames until the one whose index is
      `frame_number`.  `acks` counts the frames acknowledged. */
  function FrameLoop(k: Secrets, d: Metadata, st: FrameState, line: Bytes): (r: FramesOutcome)
    requires d.size <= FwMaxSize && st.received <= d.size && |st.data| == DataSize
    requires st.indexCheck <= FrameNumber(d.size)
    ensures r.FramesHalted? ==> st.indexCheck <= r.acks <= FrameNumber(d.size)
    ensures r.FramesDone? ==>
      && r.last.indexCheck == FrameNumber(d.size) + 1
      && st.received <= r.last.received <= d.size && |r.last.data| == DataSize
    decreases FrameNumber(d.size) - st.indexCheck
  {
    match FrameStep(k, d, st, line)
    case FrameHalted(h) => FramesHalted(st.indexCheck, h)
    case FrameAccepted(next, index, rest) =>
      if index == FrameNumber(d.size) then FramesDone(next, rest)
      else FrameLoop(k, d, next, rest)
  }

  /** One turn of the frame loop decides whether it stops, finishes or goes on. */
  lemma FrameLoopUnfold(k: Secrets, d: Metadata, st: FrameState, line: Bytes)
    requires d.size <= FwMaxSize && st.received <= d.size && |st.data| == DataSize
    requires st.indexCheck <= FrameNumber(d.size)
    ensures match FrameStep(k, d, st, line)
      case FrameHalted(h) => FrameLoop(k, d, st, line) == FramesHalted(st.indexCheck, h)
      case FrameAccepted(next, index, rest) =>
        if index == FrameNumber(d.size) then FrameLoop(k, d, st, line) == FramesDone(next, rest)
        else FrameLoop(k, d, st, line) == FrameLoop(k, d, next, rest)
  {
  }

  /** What gets flashed: the decrypted firmware, the metadata and the release message. */
  datatype Install = Install(firmware: Bytes, metadata: Bytes, message: Bytes)

  datatype Reception =
    | Halted(acks: nat, halt: Halt)
    | Accepted(acks: nat, install: Install, data: Bytes, rest: Bytes)

  /** The bytes the device writes back: one OK per acknowledged step, and
      ERROR when it resets. */
  function Transcript(r: Reception): Bytes
  {
    Repeat(r.acks, Ok) + (if r.Halted? then Stop(r.halt) else [])
  }

  /** What the device writes when it stops: ERROR before a reset, nothing while it waits. */
  function Stop(h: Halt): Bytes
  {
    if h == Reset then [Error] else []
  }

  /** `r` after `n` earlier acknowledgements. */
  function Later(n: nat, r: Reception): (r': Reception)
    ensures r'.acks == n + r.acks && r'.Halted? == r.Halted?
    ensures r.Halted? ==> r'.halt == r.halt
    ensures r.Accepted? ==> r'.install == r.install && r'.data == r.data && r'.rest == r.rest
  {
    match r
    case Halted(a, h) => Halted(n + a, h)
    case Accepted(a, i, data, rest) => Accepted(n + a, i, data, rest)
  }

  datatype Read = Read(value: Bytes, rest: Bytes)

  /** The release message and its MAC (lines 438-441). */
  function ReadRelease(k: Secrets, msgSize: nat, line: Bytes): Result<Read, Halt>
    requires msgSize <= ReleaseMaxSize
  {
    if |line| < msgSize then Failure(Blocked)
    else
      match VerifyMac(k, line[..msgSize], line[msgSize..])
      case Some(h) => Failure(h)
      case None => Success(Read(line[..msgSize], line[msgSize + HmacSize..]))
  }

  /** `gcm_decrypt_and_verify` (lines 214-241): IV, then tag, which must be
      the GCM tag of the ciphertext; the plaintext is GCTR of it. */
  function Decrypt(k: Secrets, ct: Bytes, line: Bytes): Result<Read, Halt>
  {
    if |line| < IvSize + TagSize then Failure(Blocked)
    else
      var iv := line[..IvSize];
      var tag := line[IvSize..IvSize + TagSize];
      if tag != k.prim.gcmTag(k.aesKey, iv, ct) then Failure(Reset)
      else Success(Read(Gctr(k.prim, k.aesKey, iv, ct), line[IvSize + TagSize..]))
  }

  /** Lines 487-490: a version-0 (debug) update keeps the stored version bytes. */
  function KeepVersion(metadata: Bytes, stored: Bytes, version: u16): (m: Bytes)
    requires |metadata| == FwMetadataSize && |stored| == 2
    ensures |m| == FwMetadataSize && m[2..] == metadata[2..]
  {
    if version == 0 then stored + metadata[2..] else metadata
  }

  /** After the frame loop (lines 426-466): the byte count and the firmware
      MAC, then the release message, the bundle MAC and the decryption,
      each acknowledged. */
  function Trailer(k: Secrets, stored: Bytes, metadata: Bytes, d: Metadata, received: nat, data: Bytes, line: Bytes): (r: Reception)
    requires |stored| == 2 && |metadata| == FwMetadataSize
    requires d.size <= FwMaxSize && d.msgSize <= ReleaseMaxSize && |data| == DataSize
    ensures r.Halted? ==> r.acks < 4
    ensures r.Accepted? ==> r.acks == 4 && received == d.size
    ensures r.Accepted? ==> Unpacked(r, d, KeepVersion(metadata, stored, d.version))
  {
    if d.size != received then Halted(0, Reset)
    else
      match VerifyMac(k, data[..d.size], line)
      case Some(h) => Halted(0, h)
      case None => Later(1, Released(k, stored, metadata, d, data, line[HmacSize..]))
  }

  /** Lines 438-466: the release message and its MAC, then what follows
      in `Sealed`. */
  function Released(k: Secrets, stored: Bytes, metadata: Bytes, d: Metadata, data: Bytes, line: Bytes): (r: Reception)
    requires |stored| == 2 && |metadata| == FwMetadataSize
    requires d.size <= FwMaxSize && d.msgSize <= ReleaseMaxSize && |data| == DataSize
    ensures r.Halted? ==> r.acks < 3
    ensures r.Accepted? ==> r.acks == 3 && Unpacked(r, d, KeepVersion(metadata, stored, d.version))
  {
    match ReadRelease(k, d.msgSize, line)
    case Failure(h) => Halted(0, h)
    case Success(release) => Later(1, Sealed(k, stored, metadata, d, data, release.value, release.rest))
  }

  /** Lines 444-466: the MAC over firmware, metadata and release `message`,
      then the decryption of the firmware. */
  function Sealed(k: Secrets, stored: Bytes, metadata: Bytes, d: Metadata, data: Bytes, message: Bytes, line: Bytes): (r: Reception)
    requires |stored| == 2 && |metadata| == FwMetadataSize && |message| == d.msgSize
    requires d.size <= FwMaxSize && d.msgSize <= ReleaseMaxSize && |data| == DataSize
    ensures r.Halted? ==> r.acks < 2
    ensures r.Accepted? ==> r.acks == 2 && Unpacked(r, d, KeepVersion(metadata, stored, d.version))
  {
    var ct := data[..d.size];
    match VerifyMac(k, ct + metadata + message, line)
    case Some(h) => Halted(0, h)
    case None =>
      var cleared := Splice(data, d.size, Repeat(FwMetadataSize + d.msgSize, 0));
      assert cleared[..d.size] == ct by { SpliceParts(data, d.size, Repeat(FwMetadataSize + d.msgSize, 0)); }
      Later(1, Decrypted(k, KeepVersion(metadata, stored, d.version), message, cleared, d.size, line[HmacSize..]))
  }

  /** Lines 447-466: the first `size` bytes of `data` decrypted in place,
      installing them with `metadata` and `message`. */
  function Decrypted(k: Secrets, metadata: Bytes, message: Bytes, data: Bytes, size: nat, line: Bytes): (r: Reception)
    requires size <= |data|
    ensures r.Halted? ==> r.acks == 0
    ensures r.Accepted? ==>
      && r.acks == 1 && r.install.metadata == metadata && r.install.message == message
      && |r.install.firmware| == size && |r.data| == |data| && r.data[..size] == r.install.firmware
  {
    match Decrypt(k, data[..size], line)
    case Failure(h) => Halted(0, h)
    case Success(plain) =>
      var r := Splice(data, 0, plain.value);
      assert r[..size] == plain.value by { SpliceParts(data, 0, plain.value); }
      Accepted(1, Install(plain.value, metadata, message), r, plain.rest)
  }

  /** Acknowledgements counted in two steps. */
  lemma LaterLater(m: nat, n: nat, r: Reception)
    ensures Later(m, Later(n, r)) == Later(m + n, r)
  {
  }

  /** An accepted reception of the update described by `d`: the decrypted
      firmware at the front of the buffer, the message of the announced
      size, and the metadata to store. */
  ghost predicate Unpacked(r: Reception, d: Metadata, metadata: Bytes)
    requires r.Accepted?
  {
    && |r.install.firmware| == d.size && |r.install.message| == d.msgSize
    && |r.data| == DataSize && d.size <= |r.data| && r.data[..d.size] == r.install.firmware
    && r.install.metadata == metadata
  }

  /** Acknowledgements made before `r` come first in the transcript. */
  lemma TranscriptLater(n: nat, r: Reception)
    ensures Transcript(Later(n, r)) == Repeat(n, Ok) + Transcript(r)
  {
    RepeatAppend(n, r.acks, Ok);
  }

  function AfterMetadata(k: Secrets, stored: Bytes, metadata: Bytes, d: Metadata, line: Bytes, data: Bytes): (r: Reception)
    requires |stored| == 2 && |metadata| == FwMetadataSize && |data| == DataSize
    requires d.size <= FwMaxSize && d.msgSize <= ReleaseMaxSize
    ensures r.Accepted? ==> Unpacked(r, d, KeepVersion(metadata, stored, d.version))
  {
    match FrameLoop(k, d, FrameState(0, 0, data), line)
    case FramesHalted(a, h) => Halted(a, h)
    case FramesDone(last, rest) => Later(last.indexCheck, Trailer(k, stored, metadata, d, last.received, last.data, rest))
  }

  /** The reception after the metadata, by how the frame loop ends. */
  lemma AfterFrames(k: Secrets, stored: Bytes, metadata: Bytes, d: Metadata, line: Bytes, data: Bytes)
    requires |stored| == 2 && |metadata| == FwMetadataSize && |data| == DataSize
    requires d.size <= FwMaxSize && d.msgSize <= ReleaseMaxSize
    ensures match FrameLoop(k, d, FrameState(0, 0, data), line)
      case FramesHalted(a, h) => AfterMetadata(k, stored, metadata, d, line, data) == Halted(a, h)
      case FramesDone(last, rest) =>
        AfterMetadata(k, stored, metadata, d, line, data) == Later(last.indexCheck, Trailer(k, stored, metadata, d, last.received, last.data, rest))
  {
  }

  /** `load_firmware` (lines 297-458) as a function of the bytes that arrive,
      of the two version bytes stored in flash and of the buffer's contents. */
  function Receive(k: Secrets, stored: Bytes, line: Bytes, data: Bytes): (r: Reception)
    requires |stored| == 2 && |data| == DataSize
    ensures r.Accepted? ==>
      && |line| >= FwMetadataSize
      && var d := DecodeMetadata(line[..FwMetadataSize]);
      && d.size <= FwMaxSize && d.msgSize <= ReleaseMaxSize
      && Unpacked(r, d, KeepVersion(line[..FwMetadataSize], stored, d.version))
  {
    if |line| < FwMetadataSize then Halted(0, Blocked)
    else
      var metadata := line[..FwMetadataSize];
      match VerifyMac(k, metadata, line[FwMetadataSize..])
      case Some(h) => Halted(0, h)
      case None => Announced(k, stored, metadata, line[FwMetadataSize + HmacSize..], data)
  }

  /** How `Receive` ends by the metadata read and its MAC. */
  lemma ReceiveCases(k: Secrets, stored: Bytes, line: Bytes, data: Bytes)
    requires |stored| == 2 && |data| == DataSize
    ensures |line| < FwMetadataSize ==> Receive(k, stored, line, data) == Halted(0, Blocked)
    ensures |line| >= FwMetadataSize ==>
      var v := VerifyMac(k, line[..FwMetadataSize], line[FwMetadataSize..]);
      Receive(k, stored, line, data)
        == if v.Some? then Halted(0, v.value)
           else Announced(k, stored, line[..FwMetadataSize], line[FwMetadataSize + HmacSize..], data)
  {
  }

  /** Lines 336-353: an authenticated metadata block is refused when it would
      roll the version back (0 is exempt), or when the firmware or the
      release message is too large; otherwise it is acknowledged. */
  function Announced(k: Secrets, stored: Bytes, metadata: Bytes, line: Bytes, data: Bytes): (r: Reception)
    requires |stored| == 2 && |metadata| == FwMetadataSize && |data| == DataSize
    ensures r.Accepted? ==>
      var d := DecodeMetadata(metadata);
      && d.size <= FwMaxSize && d.msgSize <= ReleaseMaxSize
      && Unpacked(r, d, KeepVersion(metadata, stored, d.version))
  {
    var d := DecodeMetadata(metadata);
    if Refused(stored, d) then Halted(0, Reset)
    else Later(1, AfterMetadata(k, stored, metadata, d, line, data))
  }

  /** The three checks of lines 339-353. */
  predicate Refused(stored: Bytes, d: Metadata)
    requires |stored| == 2
  {
    || (d.version != 0 && d.version < DecodeU16(stored[0], stored[1]))
    || d.size > FwMaxSize
    || d.msgSize > ReleaseMaxSize
  }

  /** The firmware pages of lines 469-484: 1 KiB at a time from `at`, the last page shorter. */
  function FlashPages(f: Bytes, fw: Bytes, at: nat): (r: Bytes)
    requires at + |fw| + FlashPageSize <= |f|
    ensures |r| == |f|
    decreases |fw|
  {
    if fw == [] then f
    else if |fw| <= FlashPageSize then Splice(f, at, PageImage(fw))
    else FlashPages(Splice(f, at, PageImage(fw[..FlashPageSize])), fw[FlashPageSize..], at + FlashPageSize)
  }

  /** Flashing firmware pages from `at` on leaves everything below `at` as it was. */
  lemma {:induction false} FlashPagesBelow(f: Bytes, fw: Bytes, at: nat)
    requires at + |fw| + FlashPageSize <= |f|
    ensures FlashPages(f, fw, at)[..at] == f[..at]
    decreases |fw|
  {
    if fw == [] {
    } else if |fw| <= FlashPageSize {
      SpliceParts(f, at, PageImage(fw));
    } else {
      var f' := Splice(f, at, PageImage(fw[..FlashPageSize]));
      SpliceParts(f, at, PageImage(fw[..FlashPageSize]));
      FlashPagesBelow(f', fw[FlashPageSize..], at + FlashPageSize);
      assert FlashPages(f, fw, at)[..at + FlashPageSize][..at] == FlashPages(f, fw, at)[..at];
      assert f'[..at + FlashPageSize][..at] == f'[..at];
    }
  }

  /** One page of the flashing loop: `fw` non-empty, its first page written,
      and the remaining pages still to come. */
  lemma FlashPagesStep(f: Bytes, fw: Bytes, at: nat)
    requires at + |fw| + 2 * FlashPageSize <= |f| && fw != []
    ensures var n := Min(|fw|, FlashPageSize);
      FlashPages(f, fw, at) == FlashPages(Splice(f, at, PageImage(fw[..n])), fw[n..], at + FlashPageSize)
  {
    if |fw| <= FlashPageSize {
      assert fw[..|fw|] == fw;
    }
  }

  /** The flashing loop's step, stated on the offset `i` into the firmware. */
  lemma FlashPagesTurn(f: Bytes, fw: Bytes, i: nat, n: nat, at: nat)
    requires i < |fw| && at + |fw| - i + 2 * FlashPageSize <= |f| && n == Min(|fw| - i, FlashPageSize)
    ensures FlashPages(f, Drop(fw, i), at)
         == FlashPages(Splice(f, at, PageImage(fw[i..i + n])), Drop(fw, i + FlashPageSize), at + FlashPageSize)
  {
    var rest := Drop(fw, i);
    FlashPagesStep(f, rest, at);
    assert rest[..n] == fw[i..i + n];
    assert rest[n..] == Drop(fw, i + FlashPageSize);
  }

  lemma SliceOfPrefix(s: Bytes, n: nat, lo: nat, hi: nat)
    requires lo <= hi <= n <= |s|
    ensures s[..n][lo..hi] == s[lo..hi]
  {
  }

  /** The firmware pages of `load_initial_firmware` (lines 135-139): every
      whole 1 KiB page, then one page with the `size % 1024` bytes left,
      which is an erased page when nothing is left. */
  function InitialPages(f: Bytes, image: Bytes, at: nat): (r: Bytes)
    requires at + |image| + FlashPageSize <= |f|
    ensures |r| == |f|
    decreases |image|
  {
    if |image| < FlashPageSize then Splice(f, at, PageImage(image))
    else InitialPages(Splice(f, at, PageImage(image[..FlashPageSize])), image[FlashPageSize..], at + FlashPageSize)
  }

  /** The flash after `load_initial_firmware` on a blank metadata word
      (lines 109-140). */
  function InitialFlash(f: Bytes, image: Bytes): (r: Bytes)
    requires |f| == FlashSize && FwBase + |image| + FlashPageSize <= FlashSize
    ensures |r| == FlashSize
  {
    var withMetadata := Splice(f, MetadataBase, PageImage(EncodeMetadata(InitialVersion, |image|, InitialMessageSize)));
    var withMessage := Splice(withMetadata, ReleaseBase, PageImage(InitialMessageBytes));
    InitialPages(withMessage, image, FwBase)
  }

  /** Page `i` of an image of `size` bytes starts on a page boundary and,
      below `size / 1024`, is a whole page; at `size / 1024` the
      `size % 1024` bytes left end the image. */
  lemma WholePage(size: nat, i: nat)
    requires i <= size / FlashPageSize
    ensures (FwBase + FlashPageSize * i) % FlashPageSize == 0
    ensures i < size / FlashPageSize ==> FlashPageSize * i + FlashPageSize <= size
    ensures i == size / FlashPageSize ==> FlashPageSize * i + size % FlashPageSize == size
  {
  }

  /** The step of the whole-page loop of `load_initial_firmware`. */
  lemma InitialPagesTurn(f: Bytes, image: Bytes, k: nat, at: nat)
    requires k + FlashPageSize <= |image| && at + |image| - k + FlashPageSize <= |f|
    ensures InitialPages(f, image[k..], at)
         == InitialPages(Splice(f, at, PageImage(image[k..k + FlashPageSize])), image[k + FlashPageSize..], at + FlashPageSize)
  {
    assert image[k..][..FlashPageSize] == image[k..k + FlashPageSize];
    assert image[k..][FlashPageSize..] == image[k + FlashPageSize..];
  }

  /** An update the buffers and the flash pages can hold. */
  predicate Fits(i: Install)
  {
    |i.firmware| <= FwMaxSize && |i.metadata| == FwMetadataSize && |i.message| <= ReleaseMaxSize
  }

  /** The flash after an accepted update (lines 469-509). */
  function Installed(f: Bytes, i: Install): Bytes
    requires |f| == FlashSize && |i.firmware| <= FwMaxSize
    requires |i.metadata| == FwMetadataSize && |i.message| <= ReleaseMaxSize
  {
    Splice(Splice(FlashPages(f, i.firmware, FwBase), MetadataBase, PageImage(i.metadata)),
           ReleaseBase, PageImage(i.message))
  }

  class Device {
    const secrets: Secrets
    /** Bytes the host has sent on UART1 that the device has not read yet. */
    var input: Bytes
    /** Bytes the device has written to the host on UART1. */
    var output: Bytes
    /** Flash contents from address 0 to FlashSize. */
    var flash: Bytes
    /** `unsigned char data[DATA_SIZE]` */
    const data: array<byte>
    /** `unsigned char fw_release_message[RELEASE_MAX_SIZE]` */
    const releaseMessage: array<byte>

    ghost predicate Valid()
      reads this
    {
      data.Length == DataSize && releaseMessage.Length == ReleaseMaxSize
      && data != releaseMessage && |flash| == FlashSize
    }

    /** The device has answered as the transcript of `r` says and, when `r`
        accepts, holds its buffer contents and has the rest of the line
        still to read. */
    ghost predicate Reported(r: Reception, h: Option<Halt>, output0: Bytes, msgSize: nat)
      reads this, data, releaseMessage
    {
      && output == output0 + Transcript(r)
      && (r.Halted? ==> h == Some(r.halt))
      && (r.Accepted? ==>
            && h == None && data[..] == r.data && input == r.rest
            && msgSize <= releaseMessage.Length && releaseMessage[..msgSize] == r.install.message)
    }

    /** The device has answered as the transcript of `r` says; when `r`
        halts the flash is as it was, when it accepts the flash holds the
        installed update and the buffers and the line are as `r` leaves them. */
    ghost predicate Concluded(r: Reception, h: Option<Halt>, output0: Bytes, flash0: Bytes)
      reads this, data, releaseMessage
    {
      && output == output0 + Transcript(r)
      && (r.Halted? ==> h == Some(r.halt) && flash == flash0)
      && (r.Accepted? ==>
            && h == None && input == r.rest && data[..] == r.data
            && |r.install.message| <= releaseMessage.Length
            && releaseMessage[..|r.install.message|] == r.install.message
            && Fits(r.install) && |flash0| == FlashSize
            && flash == Installed(flash0, r.install))
    }

    /** A device just out of reset: the global buffers are zero, the flash
        keeps what it held. */
    constructor(secrets: Secrets, input: Bytes, flash: Bytes)
      requires |flash| == FlashSize
      ensures Valid() && fresh(data) && fresh(releaseMessage)
      ensures this.secrets == secrets && this.input == input && this.output == [] && this.flash == flash
      ensures data[..] == Repeat(DataSize, 0) && releaseMessage[..] == Repeat(ReleaseMaxSize, 0)
    {
      this.secrets := secrets;
      this.input := input;
      this.output := [];
      this.flash := flash;
      this.data := new byte[DataSize](_ => 0);
      this.releaseMessage := new byte[ReleaseMaxSize](_ => 0);
    }

    /** `FlashErase`: every byte of the page reads 0xFF. */
    method FlashErase(pageAddr: nat)
      requires Valid() && pageAddr % FlashPageSize == 0 && pageAddr + FlashPageSize <= FlashSize
      modifies this
      ensures Valid() && flash == Splice(old(flash), pageAddr, Repeat(FlashPageSize, 0xFF))
      ensures input == old(input) && output == old(output)
    {
      flash := Splice(flash, pageAddr, Repeat(FlashPageSize, 0xFF));
    }

    /** `FlashProgram`: whole 4-byte words stored from a word-aligned address. */
    method FlashProgram(words: Bytes, addr: nat)
      requires Valid() && |words| % FlashWriteSize == 0 && addr % FlashWriteSize == 0
      requires addr + |words| <= FlashSize
      modifies this
      ensures Valid() && flash == Splice(old(flash), addr, words)
      ensures input == old(input) && output == old(output)
    {
      flash := Splice(flash, addr, words);
    }

    /** `program_flash` (lines 514-548): erase the page, program the whole
        words, then the last partial word padded with 0xFF.  The page ends
        up holding `src` followed by 0xFF. */
    method ProgramFlash(pageAddr: nat, src: Bytes)
      requires Valid() && pageAddr % FlashPageSize == 0 && pageAddr + FlashPageSize <= FlashSize
      requires |src| <= FlashPageSize
      modifies this
      ensures Valid() && flash == Splice(old(flash), pageAddr, PageImage(src))
      ensures input == old(input) && output == old(output)
    {
      FlashErase(pageAddr);
      if |src| % FlashWriteSize != 0 {
        var rem := |src| % FlashWriteSize;
        var numFullBytes := |src| - rem;
        FlashProgram(src[..numFullBytes], pageAddr);
        var word := PackTailWord(src, numFullBytes);
        FlashProgram(WordBytes(word), pageAddr + numFullBytes);
        PageAssembly(old(flash), pageAddr, src, numFullBytes, WordBytes(word));
      } else {
        FlashProgram(src, pageAddr);
        assert src[..|src|] == src;
        assert Splice(flash, pageAddr + |src|, []) == flash;
        PageAssembly(old(flash), pageAddr, src, |src|, []);
      }
    }

    // -------------------------------------------------------------------
    // UART1

    /** `uart_read(UART1, BLOCKING, &read)`: the next byte from the host.
        The call waits for it; when the host never sends another byte the
        model answers None. */
    method ReadByte() returns (b: Option<byte>)
      requires Valid()
      modifies this
      ensures Valid() && flash == old(flash) && output == old(output)
      ensures if old(input) == [] then b == None && input == []
              else b == Some(old(input)[0]) && input == old(input)[1..]
    {
      if input == [] {
        return None;
      }
      b := Some(input[0]);
      input := input[1..];
    }

    /** `uart_read_variable` (lines 194-207): reads min(length, 1024) bytes into `da`. */
    method ReadVariable(da: array<byte>, length: nat) returns (ok: bool)
      requires Valid() && Min(length, FlashPageSize) <= da.Length
      modifies this, da
      ensures Valid() && flash == old(flash) && output == old(output)
      ensures var n := Min(length, FlashPageSize);
        if n <= |old(input)| then
          ok && input == old(input)[n..] && da[..n] == old(input)[..n] && da[n..] == old(da[n..])
        else
          !ok && input == []
    {
      var i := 0;
      while i < length && i < FlashPageSize
        invariant 0 <= i <= Min(length, FlashPageSize) && i <= |old(input)|
        invariant Valid() && flash == old(flash) && output == old(output)
        invariant input == old(input)[i..]
        invariant da[..i] == old(input)[..i] && da[i..] == old(da[i..])
      {
        var b := ReadByte();
        if b.None? {
          return false;
        }
        assert da[i + 1..] == da[i..][1..] == old(da[i..])[1..] == old(da[i + 1..]);
        ghost var after := da[i + 1..];
        da[i] := b.value;
        assert da[i + 1..] == after;
        assert da[..i + 1] == da[..i] + [b.value];
        i := i + 1;
      }
      return true;
    }

    /** `uart_write(UART1, OK)`. */
    method WriteOk()
      requires Valid()
      modifies this
      ensures Valid() && flash == old(flash) && input == old(input) && output == old(output) + [Ok]
    {
      output := output + [Ok];
    }

    /** `send_err` (lines 175-180): ERROR to the host; the reset that follows
        is the caller stopping. */
    method SendErr()
      requires Valid()
      modifies this
      ensures Valid() && flash == old(flash) && input == old(input) && output == old(output) + [Error]
    {
      output := output + [Error];
    }

    /** `sha_hmac(msg, len)` (lines 250-281): reads a MAC and compares it in
        constant time with the MAC of `msg`. */
    method ShaHmac(msg: Bytes) returns (h: Option<Halt>)
      requires Valid()
      modifies this
      ensures Valid() && flash == old(flash)
      ensures h == VerifyMac(secrets, msg, old(input))
      ensures output == old(output) + (if h.Some? then Stop(h.value) else [])
      ensures h == None ==> input == old(input)[HmacSize..]
    {
      var hmac := new byte[HmacSize];
      var ok := ReadVariable(hmac, HmacSize);
      if !ok {
        return Some(Blocked);
      }
      var out := Hmac(secrets.prim, secrets.hmacKey, msg);
      var check := CompareDigests(hmac[..], out);
      if check != 0 {
        SendErr();
        return Some(Reset);
      }
      return None;
    }

    // -------------------------------------------------------------------
    // The frame loop.

    /** The byte loop of lines 391-404: each byte goes straight into `data`
        at `1024 * index + i` and is counted; the byte that takes the count
        past `size` resets the device. */
    method ReceivePayload(index: nat, frameLength: nat, size: nat, received: nat)
      returns (h: Option<Halt>, i: nat, count: nat)
      requires Valid() && FlashPageSize * index + FlashPageSize <= DataSize
      requires frameLength <= FlashPageSize && received <= size
      modifies this, data
      ensures Valid() && flash == old(flash)
      ensures var room := size - received;
        if frameLength > room then
          if |old(input)| <= room then h == Some(Blocked) && output == old(output)
          else h == Some(Reset) && output == old(output) + [Error]
        else if |old(input)| < frameLength then h == Some(Blocked) && output == old(output)
        else
          && h == None && i == frameLength && count == received + frameLength
          && output == old(output) && input == old(input)[frameLength..]
          && data[..] == Splice(old(data[..]), FlashPageSize * index, old(input)[..frameLength])
    {
      var base := FlashPageSize * index;
      i := 0;
      count := received;
      while i < frameLength && i < FlashPageSize
        invariant 0 <= i <= frameLength && i <= |old(input)|
        invariant count == received + i && count <= size
        invariant Valid() && flash == old(flash) && output == old(output)
        invariant input == old(input)[i..]
        invariant data[..] == Splice(old(data[..]), base, old(input)[..i])
      {
        var b := ReadByte();
        if b.None? {
          return Some(Blocked), i, count;
        }
        SpliceStep(old(data[..]), base, old(input)[..i], b.value);
        assert old(input)[..i] + [b.value] == old(input)[..i + 1];
        data[base + i] := b.value;
        count := count + 1;
        if count > size {
          SendErr();
          return Some(Reset), i, count;
        }
        i := i + 1;
      }
      h := None;
    }

    /** One turn of the frame loop (lines 359-364): the header and its MAC. */
    method ReceiveFrame(d: Metadata, indexCheck: nat, received: nat)
      returns (h: Option<Halt>, index: nat, count: nat)
      requires Valid() && d.size <= FwMaxSize && received <= d.size
      modifies this, data
      ensures Valid() && flash == old(flash)
      ensures match FrameStep(secrets, d, FrameState(indexCheck, received, old(data[..])), old(input))
        case FrameHalted(halt) => h == Some(halt) && output == old(output) + Stop(halt)
        case FrameAccepted(next, idx, rest) =>
          && h == None && index == idx && count == next.received
          && data[..] == next.data && input == rest && output == old(output) + [Ok]
    {
      ghost var line := input;
      var frMetadata := new byte[FrMetadataSize];
      var ok := ReadVariable(frMetadata, FrMetadataSize);
      if !ok {
        return Some(Blocked), 0, received;
      }
      assert frMetadata[..] == line[..FrMetadataSize];
      h := ShaHmac(frMetadata[..]);
      if h.Some? {
        return h, 0, received;
      }
      assert input == line[FrMetadataSize + HmacSize..];
      h, index, count := CheckFrame(d, indexCheck, received, frMetadata);
    }

    /** Lines 366-388: decode the header and check index, length and version. */
    method CheckFrame(d: Metadata, indexCheck: nat, received: nat, frMetadata: array<byte>)
      returns (h: Option<Halt>, index: nat, count: nat)
      requires Valid() && d.size <= FwMaxSize && received <= d.size
      requires frMetadata.Length == FrMetadataSize && frMetadata != data
      modifies this, data
      ensures Valid() && flash == old(flash)
      ensures match FrameBody(secrets, d, FrameState(indexCheck, received, old(data[..])), frMetadata[..], old(input))
        case FrameHalted(halt) => h == Some(halt) && output == old(output) + Stop(halt)
        case FrameAccepted(next, idx, rest) =>
          && h == None && index == idx && count == next.received
          && data[..] == next.data && input == rest && output == old(output) + [Ok]
    {
      index := DecodeU16(frMetadata[0], frMetadata[1]);
      var frameLength := DecodeU16(frMetadata[2], frMetadata[3]);
      var frameVersion := DecodeU16(frMetadata[4], frMetadata[5]);
      assert DecodeFrameHeader(frMetadata[..]) == FrameHeader(index, frameLength, frameVersion);
      if index != indexCheck || index > FrameNumber(d.size) {
        SendErr();
        return Some(Reset), index, received;
      }
      if frameLength > FlashPageSize {
        SendErr();
        return Some(Reset), index, received;
      }
      if d.version != frameVersion || frameVersion == 1 {
        SendErr();
        return Some(Reset), index, received;
      }
      h, count := StoreFrame(d, index, received, frameLength, frMetadata);
    }

    /** Lines 404-406: the frame header is stored right after the payload. */
    method AppendHeader(at: nat, frMetadata: array<byte>)
      requires Valid() && at + FrMetadataSize <= DataSize
      requires frMetadata.Length == FrMetadataSize && frMetadata != data
      modifies data
      ensures data[..] == Splice(old(data[..]), at, frMetadata[..])
    {
      ghost var d0 := data[..];
      for j := 0 to FrMetadataSize
        invariant data[..] == Splice(d0, at, frMetadata[..j])
      {
        SpliceStep(d0, at, frMetadata[..j], frMetadata[j]);
        assert frMetadata[..j] + [frMetadata[j]] == frMetadata[..j + 1];
        data[at + j] := frMetadata[j];
      }
      assert frMetadata[..FrMetadataSize] == frMetadata[..];
    }

    /** Lines 390-417: the payload, the header after it, the MAC over both
        and the acknowledgement. */
    method StoreFrame(d: Metadata, index: nat, received: nat, frameLength: nat, frMetadata: array<byte>)
      returns (h: Option<Halt>, count: nat)
      requires Valid() && d.size <= FwMaxSize && received <= d.size
      requires index <= FrameNumber(d.size) && frameLength <= FlashPageSize
      requires frMetadata.Length == FrMetadataSize && frMetadata != data
      modifies this, data
      ensures Valid() && flash == old(flash)
      ensures match FramePayload(secrets, d, FrameState(index, received, old(data[..])), frMetadata[..], frameLength, old(input))
        case FrameHalted(halt) => h == Some(halt) && output == old(output) + Stop(halt)
        case FrameAccepted(next, idx, rest) =>
          && h == None && count == next.received
          && data[..] == next.data && input == rest && output == old(output) + [Ok]
    {
      ghost var body := input;
      ghost var d0 := data[..];
      var i;
      h, i, count := ReceivePayload(index, frameLength, d.size, received);
      if h.Some? {
        return;
      }
      var base := FlashPageSize * index;
      ghost var payload := body[..frameLength];
      AppendHeader(base + frameLength, frMetadata);
      SpliceAdjacent(d0, base, payload, frMetadata[..]);
      SpliceParts(d0, base, payload + frMetadata[..]);
      h := ShaHmac(data[base..base + frameLength + FrMetadataSize]);
      if h.Some? {
        return;
      }
      WriteOk();
    }

    /** The frame loop (lines 355-424).  `index` always equals `indexCheck`
        once a frame is accepted, so leaving after the frame numbered
        `frame_number` is leaving when `indexCheck` passes it. */
    method ReceiveFrames(d: Metadata) returns (h: Option<Halt>, indexCheck: nat, received: nat)
      requires Valid() && d.size <= FwMaxSize
      modifies this, data
      ensures Valid() && flash == old(flash)
      ensures match FrameLoop(secrets, d, FrameState(0, 0, old(data[..])), old(input))
        case FramesHalted(acks, halt) =>
          h == Some(halt) && output == old(output) + Repeat(acks, Ok) + Stop(halt)
        case FramesDone(last, rest) =>
          && h == None && indexCheck == last.indexCheck && received == last.received
          && data[..] == last.data && input == rest && output == old(output) + Repeat(indexCheck, Ok)
    {
      var frameNumber := FrameNumber(d.size);
      ghost var spec := FrameLoop(secrets, d, FrameState(0, 0, data[..]), input);
      indexCheck, received := 0, 0;
      while indexCheck <= frameNumber
        invariant Valid() && flash == old(flash) && received <= d.size
        invariant output == old(output) + Repeat(indexCheck, Ok)
        invariant indexCheck <= frameNumber ==>
          FrameLoop(secrets, d, FrameState(indexCheck, received, data[..]), input) == spec
        invariant indexCheck > frameNumber ==>
          indexCheck == frameNumber + 1 && spec == FramesDone(FrameState(indexCheck, received, data[..]), input)
        decreases frameNumber + 1 - indexCheck
      {
        var count;
        h, count := FrameTurn(d, indexCheck, received);
        if h.Some? {
          return;
        }
        RepeatAppend(indexCheck, 1, Ok);
        indexCheck, received := indexCheck + 1, count;
      }
      h := None;
    }

    /** One frame of the loop, stated against the rest of the loop. */
    method FrameTurn(d: Metadata, indexCheck: nat, received: nat) returns (h: Option<Halt>, count: nat)
      requires Valid() && d.size <= FwMaxSize && received <= d.size && indexCheck <= FrameNumber(d.size)
      modifies this, data
      ensures Valid() && flash == old(flash)
      ensures var spec := FrameLoop(secrets, d, FrameState(indexCheck, received, old(data[..])), old(input));
        if h.Some? then
          spec == FramesHalted(indexCheck, h.value) && output == old(output) + Stop(h.value)
        else
          && received <= count <= d.size && output == old(output) + [Ok]
          && if indexCheck == FrameNumber(d.size) then spec == FramesDone(FrameState(indexCheck + 1, count, data[..]), input)
             else spec == FrameLoop(secrets, d, FrameState(indexCheck + 1, count, data[..]), input)
    {
      FrameLoopUnfold(secrets, d, FrameState(indexCheck, received, data[..]), input);
      var index;
      h, index, count := ReceiveFrame(d, indexCheck, received);
    }

    /** Lines 426-437: the byte count and the MAC over the whole firmware. */
    method CheckFirmware(size: nat, received: nat) returns (h: Option<Halt>)
      requires Valid() && size <= FwMaxSize
      modifies this
      ensures Valid() && flash == old(flash)
      ensures h == if size != received then Some(Reset) else VerifyMac(secrets, old(data[..size]), old(input))
      ensures output == old(output) + (if h.Some? then Stop(h.value) else [Ok])
      ensures h == None ==> input == old(input)[HmacSize..]
    {
      if size != received {
        SendErr();
        return Some(Reset);
      }
      h := ShaHmac(data[..size]);
      if h.None? {
        WriteOk();
      }
    }

    /** Lines 439-445: the release message and its MAC. */
    method ReceiveRelease(msgSize: nat) returns (h: Option<Halt>)
      requires Valid() && msgSize <= ReleaseMaxSize
      modifies this, releaseMessage
      ensures Valid() && flash == old(flash)
      ensures match ReadRelease(secrets, msgSize, old(input))
        case Failure(halt) => h == Some(halt) && output == old(output) + Stop(halt)
        case Success(release) =>
          && h == None && releaseMessage[..msgSize] == release.value
          && input == release.rest && output == old(output) + [Ok]
    {
      var ok := ReadVariable(releaseMessage, msgSize);
      if !ok {
        return Some(Blocked);
      }
      h := ShaHmac(releaseMessage[..msgSize]);
      if h.None? {
        WriteOk();
      }
    }

    /** Lines 447-460: the metadata and the release message are appended to
        the firmware, the MAC over all three is checked, and the appended
        bytes are then zeroed. */
    method CheckBundle(metadata: Bytes, size: nat, msgSize: nat) returns (h: Option<Halt>)
      requires Valid() && |metadata| == FwMetadataSize && size <= FwMaxSize && msgSize <= ReleaseMaxSize
      modifies this, data
      ensures Valid() && flash == old(flash)
      ensures h == VerifyMac(secrets, old(data[..size]) + metadata + releaseMessage[..msgSize], old(input))
      ensures output == old(output) + (if h.Some? then Stop(h.value) else [Ok])
      ensures h == None ==>
        input == old(input)[HmacSize..] && data[..] == Splice(old(data[..]), size, Repeat(FwMetadataSize + msgSize, 0))
    {
      ghost var d0 := data[..];
      AppendBytes(size, metadata);
      AppendBytes(size + FwMetadataSize, releaseMessage[..msgSize]);
      SpliceAdjacent(d0, size, metadata, releaseMessage[..msgSize]);
      ghost var bundle := metadata + releaseMessage[..msgSize];
      SpliceParts(d0, size, bundle);
      assert data[..size + |bundle|] == d0[..size] + bundle;
      h := ShaHmac(data[..size + FwMetadataSize + msgSize]);
      if h.Some? {
        return;
      }
      ZeroBytes(size, FwMetadataSize + msgSize);
      SpliceOver(d0, size, bundle, Repeat(FwMetadataSize + msgSize, 0));
      WriteOk();
    }

    /** Byte-by-byte stores of `src` into the buffer from `at` on. */
    method AppendBytes(at: nat, src: Bytes)
      requires Valid() && at + |src| <= DataSize
      modifies data
      ensures data[..] == Splice(old(data[..]), at, src)
    {
      ghost var d0 := data[..];
      for i := 0 to |src|
        invariant data[..] == Splice(d0, at, src[..i])
      {
        SpliceStep(d0, at, src[..i], src[i]);
        assert src[..i] + [src[i]] == src[..i + 1];
        data[at + i] := src[i];
      }
      assert src[..|src|] == src;
    }

    /** Lines 457-458: `n` zero bytes stored from `at` on. */
    method ZeroBytes(at: nat, n: nat)
      requires Valid() && at + n <= DataSize
      modifies data
      ensures data[..] == Splice(old(data[..]), at, Repeat(n, 0))
    {
      ghost var d0 := data[..];
      for i := 0 to n
        invariant data[..] == Splice(d0, at, Repeat(i, 0))
      {
        SpliceStep(d0, at, Repeat(i, 0), 0);
        RepeatAppend(i, 1, 0);
        data[at + i] := 0;
      }
    }

    /** `gcm_decrypt_and_verify(data, size)` (lines 214-241): reads the IV and
        the tag, decrypts the firmware in place and checks the tag. */
    method DecryptFirmware(size: nat) returns (h: Option<Halt>)
      requires Valid() && size <= FwMaxSize
      modifies this, data
      ensures Valid() && flash == old(flash)
      ensures match Decrypt(secrets, old(data[..size]), old(input))
        case Failure(halt) => h == Some(halt) && output == old(output) + Stop(halt)
        case Success(plain) =>
          && h == None && data[..] == Splice(old(data[..]), 0, plain.value)
          && input == plain.rest && output == old(output) + [Ok]
    {
      ghost var line := input;
      var iv := new byte[IvSize];
      var ok := ReadVariable(iv, IvSize);
      if !ok {
        assert |line| < IvSize;
        return Some(Blocked);
      }
      ghost var mid := input;
      var tag := new byte[TagSize];
      ok := ReadVariable(tag, TagSize);
      if !ok {
        assert |line| < IvSize + TagSize;
        return Some(Blocked);
      }
      assert mid == line[IvSize..];
      assert mid[..TagSize] == line[IvSize..IvSize + TagSize];
      assert input == line[IvSize + TagSize..];
      var nonce: Block := iv[..];
      var ct := data[..size];
      var expected := secrets.prim.gcmTag(secrets.aesKey, nonce, ct);
      assert nonce == line[..IvSize] && ct == old(data[..size]);
      DecryptInPlace(nonce, size);
      if tag[..] != expected {
        SendErr();
        return Some(Reset);
      }
      WriteOk();
      h := None;
    }

    /** Storing byte `j` of `x` over a buffer that already holds the first
        `j` of them replaces one more byte of the original. */
    static lemma SpliceGrow(s: Bytes, x: Bytes, cur: Bytes, j: nat)
      requires j < |x| <= |s| && cur == Splice(s, 0, x[..j])
      ensures cur[j] == s[j] && x[..j] + [x[j]] == x[..j + 1]
      ensures cur[j := x[j]] == Splice(s, 0, x[..j + 1])
    {
      SpliceStep(s, 0, x[..j], x[j]);
      SpliceBeyond(s, 0, x[..j], j);
      assert x[..j] + [x[j]] == x[..j + 1];
    }

    /** `br_gcm_run` with decryption: every firmware byte XOR its keystream byte. */
    method DecryptInPlace(iv: Block, size: nat)
      requires Valid() && size <= FwMaxSize
      modifies data
      ensures data[..] == Splice(old(data[..]), 0, Gctr(secrets.prim, secrets.aesKey, iv, old(data[..size])))
    {
      ghost var d0 := data[..];
      ghost var plain := Gctr(secrets.prim, secrets.aesKey, iv, d0[..size]);
      for j := 0 to size
        invariant data[..] == Splice(d0, 0, plain[..j])
      {
        SpliceGrow(d0, plain, data[..], j);
        GctrAt(secrets.prim, secrets.aesKey, iv, d0[..size], j);
        var b := Xor(data[j], secrets.prim.gctrKeystream(secrets.aesKey, iv, j));
        data[j] := b;
      }
      assert plain[..size] == plain;
    }

    /** Lines 426-466, everything after the frame loop up to the flashing,
        after `n` acknowledgements that brought the output from `output0`. */
    method FinishUpdate(ghost stored: Bytes, metadata: Bytes, d: Metadata, received: nat, ghost n: nat, ghost output0: Bytes)
      returns (h: Option<Halt>)
      requires Valid() && |stored| == 2 && |metadata| == FwMetadataSize
      requires d.size <= FwMaxSize && d.msgSize <= ReleaseMaxSize
      requires output == output0 + Repeat(n, Ok)
      modifies this, data, releaseMessage
      ensures Valid() && flash == old(flash)
      ensures Reported(Later(n, Trailer(secrets, stored, metadata, d, received, old(data[..]), old(input))), h, output0, d.msgSize)
    {
      TranscriptLater(n, Trailer(secrets, stored, metadata, d, received, data[..], input));
      h := CheckFirmware(d.size, received);
      if h.Some? {
        return;
      }
      ghost var released := Released(secrets, stored, metadata, d, data[..], input);
      LaterLater(n, 1, released);
      RepeatAppend(n, 1, Ok);
      h := CheckRelease(stored, metadata, d, n + 1, output0);
    }

    /** Lines 438-466: the release message, the bundle MAC and the decryption. */
    method CheckRelease(ghost stored: Bytes, metadata: Bytes, d: Metadata, ghost n: nat, ghost output0: Bytes)
      returns (h: Option<Halt>)
      requires Valid() && |stored| == 2 && |metadata| == FwMetadataSize
      requires d.size <= FwMaxSize && d.msgSize <= ReleaseMaxSize
      requires output == output0 + Repeat(n, Ok)
      modifies this, data, releaseMessage
      ensures Valid() && flash == old(flash)
      ensures Reported(Later(n, Released(secrets, stored, metadata, d, old(data[..]), old(input))), h, output0, d.msgSize)
    {
      TranscriptLater(n, Released(secrets, stored, metadata, d, data[..], input));
      h := ReceiveRelease(d.msgSize);
      if h.Some? {
        return;
      }
      ghost var message := releaseMessage[..d.msgSize];
      LaterLater(n, 1, Sealed(secrets, stored, metadata, d, data[..], message, input));
      RepeatAppend(n, 1, Ok);
      h := CheckSeal(stored, metadata, d, message, n + 1, output0);
    }

    /** Lines 444-466: the MAC over firmware, metadata and release message,
        then the decryption. */
    method CheckSeal(ghost stored: Bytes, metadata: Bytes, d: Metadata, ghost message: Bytes, ghost n: nat, ghost output0: Bytes)
      returns (h: Option<Halt>)
      requires Valid() && |stored| == 2 && |metadata| == FwMetadataSize
      requires d.size <= FwMaxSize && d.msgSize <= ReleaseMaxSize
      requires |message| == d.msgSize && releaseMessage[..d.msgSize] == message
      requires output == output0 + Repeat(n, Ok)
      modifies this, data
      ensures Valid() && flash == old(flash)
      ensures Reported(Later(n, Sealed(secrets, stored, metadata, d, old(data[..]), message, old(input))), h, output0, d.msgSize)
    {
      TranscriptLater(n, Sealed(secrets, stored, metadata, d, data[..], message, input));
      h := CheckBundle(metadata, d.size, d.msgSize);
      if h.Some? {
        return;
      }
      RepeatAppend(n, 1, Ok);
      LaterLater(n, 1, Decrypted(secrets, KeepVersion(metadata, stored, d.version), message, data[..], d.size, input));
      h := DecryptUpdate(KeepVersion(metadata, stored, d.version), message, d.size, n + 1, output0);
    }

    /** Lines 447-466: decrypt the firmware in the buffer; `metadata` and
        `message` are what an accepted update installs. */
    method DecryptUpdate(ghost metadata: Bytes, ghost message: Bytes, size: nat, ghost n: nat, ghost output0: Bytes)
      returns (h: Option<Halt>)
      requires Valid() && size <= FwMaxSize && |message| <= ReleaseMaxSize && releaseMessage[..|message|] == message
      requires output == output0 + Repeat(n, Ok)
      modifies this, data
      ensures Valid() && flash == old(flash)
      ensures Reported(Later(n, Decrypted(secrets, metadata, message, old(data[..]), size, old(input))), h, output0, |message|)
    {
      TranscriptLater(n, Decrypted(secrets, metadata, message, data[..], size, input));
      RepeatAppend(n, 1, Ok);
      h := DecryptFirmware(size);
    }

    /** The frames and the checks after them (lines 355-466). */
    method ReceiveUpdate(ghost stored: Bytes, metadata: Bytes, d: Metadata) returns (h: Option<Halt>)
      requires Valid() && |stored| == 2 && |metadata| == FwMetadataSize
      requires d.size <= FwMaxSize && d.msgSize <= ReleaseMaxSize
      modifies this, data, releaseMessage
      ensures Valid() && flash == old(flash)
      ensures Reported(AfterMetadata(secrets, stored, metadata, d, old(input), old(data[..])), h, old(output), d.msgSize)
    {
      ghost var o0 := output;
      AfterFrames(secrets, stored, metadata, d, input, data[..]);
      var indexCheck, received;
      h, indexCheck, received := ReceiveFrames(d);
      if h.Some? {
        return;
      }
      h := FinishUpdate(stored, metadata, d, received, indexCheck, o0);
    }

    /** Lines 468-484: the firmware page by page from FW_BASE, the last page
        holding what is left. */
    method FlashFirmware(size: nat)
      requires Valid() && size <= FwMaxSize
      modifies this
      ensures Valid() && input == old(input) && output == old(output)
      ensures flash == FlashPages(old(flash), data[..size], FwBase)
    {
      ghost var fw := data[..size];
      var pageAddr := FwBase;
      var i := 0;
      while i < size
        invariant Valid() && input == old(input) && output == old(output)
        invariant i % FlashPageSize == 0 && i < size + FlashPageSize && pageAddr == FwBase + i
        invariant FlashPages(flash, Drop(fw, i), pageAddr) == FlashPages(old(flash), fw, FwBase)
      {
        FlashFirmwarePage(fw, size, i, pageAddr);
        pageAddr := pageAddr + FlashPageSize;
        i := i + FlashPageSize;
      }
    }

    /** One turn of that loop: the page at `pageAddr` gets bytes `i ..` of
        the firmware, at most 1024 of them. */
    method FlashFirmwarePage(ghost fw: Bytes, size: nat, i: nat, pageAddr: nat)
      requires Valid() && size <= FwMaxSize && fw == data[..size]
      requires i < size && i % FlashPageSize == 0 && pageAddr == FwBase + i
      modifies this
      ensures Valid() && input == old(input) && output == old(output)
      ensures FlashPages(flash, Drop(fw, i + FlashPageSize), pageAddr + FlashPageSize)
           == FlashPages(old(flash), Drop(fw, i), pageAddr)
    {
      var frameLength := size - i;
      if frameLength > FlashPageSize {
        frameLength := FlashPageSize;
      }
      FlashPagesTurn(flash, fw, i, frameLength, pageAddr);
      var page := data[i..i + frameLength];
      SliceOfPrefix(data[..], size, i, i + frameLength);
      ProgramFlash(pageAddr, page);
    }

    /** Lines 468-509: the firmware page by page from FW_BASE, then the
        metadata (with the stored version kept for a version-0 update) and
        the release message, each on its own page. */
    method InstallFirmware(size: nat, metadata: Bytes, msgSize: nat, version: u16)
      requires Valid() && size <= FwMaxSize && |metadata| == FwMetadataSize && msgSize <= ReleaseMaxSize
      modifies this
      ensures Valid() && input == old(input) && output == old(output)
      ensures flash == Installed(old(flash),
        Install(data[..size], KeepVersion(metadata, old(flash[MetadataBase..MetadataBase + 2]), version),
                releaseMessage[..msgSize]))
    {
      FlashFirmware(size);
      FlashPagesBelow(old(flash), data[..size], FwBase);
      assert flash[MetadataBase..MetadataBase + 2] == flash[..FwBase][MetadataBase..MetadataBase + 2];
      assert old(flash[MetadataBase..MetadataBase + 2]) == old(flash[..FwBase])[MetadataBase..MetadataBase + 2];
      var m := metadata;
      if version == 0 {
        m := m[0 := flash[MetadataBase]][1 := flash[MetadataBase + 1]];
        assert m == old(flash[MetadataBase..MetadataBase + 2]) + metadata[2..];
      }
      ProgramFlash(MetadataBase, m);
      ProgramFlash(ReleaseBase, releaseMessage[..msgSize]);
    }

    /** `load_firmware` (lines 297-510), stated against `Receive`: the device
        writes the transcript of the reception; it leaves the flash alone
        unless the update is accepted, and then installs it. */
    method LoadFirmware() returns (h: Option<Halt>)
      requires Valid()
      modifies this, data, releaseMessage
      ensures Valid()
      ensures Concluded(Receive(secrets, old(flash[MetadataBase..MetadataBase + 2]), old(input), old(data[..])),
                        h, old(output), old(flash))
    {
      ghost var line := input;
      ReceiveCases(secrets, flash[MetadataBase..MetadataBase + 2], line, data[..]);
      var metadata := new byte[FwMetadataSize];
      var ok := ReadVariable(metadata, FwMetadataSize);
      if !ok {
        return Some(Blocked);
      }
      h := AuthenticateMetadata(line, flash[MetadataBase..MetadataBase + 2], metadata[..]);
    }

    /** Lines 318-329, once the metadata has been read from `line`: its MAC,
        then everything after it. */
    method AuthenticateMetadata(ghost line: Bytes, ghost stored: Bytes, metadata: Bytes) returns (h: Option<Halt>)
      requires Valid() && stored == flash[MetadataBase..MetadataBase + 2]
      requires |line| >= FwMetadataSize && metadata == line[..FwMetadataSize] && input == line[FwMetadataSize..]
      modifies this, data, releaseMessage
      ensures Valid()
      ensures var v := VerifyMac(secrets, metadata, line[FwMetadataSize..]);
        Concluded(if v.Some? then Halted(0, v.value)
                  else Announced(secrets, stored, metadata, line[FwMetadataSize + HmacSize..], old(data[..])),
                  h, old(output), old(flash))
    {
      h := ShaHmac(metadata);
      if h.Some? {
        return;
      }
      assert input == line[FwMetadataSize + HmacSize..] by {
        assert line[FwMetadataSize..][HmacSize..] == line[FwMetadataSize + HmacSize..];
      }
      h := AcceptMetadata(stored, metadata);
    }

    /** Lines 331-353: decode the metadata, check it against the stored
        version and the size limits, and answer ERROR or OK. */
    method CheckMetadata(ghost stored: Bytes, metadata: Bytes) returns (refused: bool, d: Metadata)
      requires Valid() && |metadata| == FwMetadataSize && stored == flash[MetadataBase..MetadataBase + 2]
      modifies this
      ensures Valid() && flash == old(flash) && input == old(input)
      ensures d == DecodeMetadata(metadata) && refused == Refused(stored, d)
      ensures output == old(output) + [if refused then Error else Ok]
    {
      var version := DecodeU16(metadata[0], metadata[1]);
      var size := DecodeU16(metadata[2], metadata[3]);
      var msgSize := DecodeU16(metadata[4], metadata[5]);
      d := Metadata(version, size, msgSize);
      var oldVersion := DecodeU16(flash[MetadataBase], flash[MetadataBase + 1]);
      assert oldVersion == DecodeU16(stored[0], stored[1]);
      refused := true;
      if version != 0 && version < oldVersion {
        SendErr();
        return;
      }
      if size > FwMaxSize {
        SendErr();
        return;
      }
      if msgSize > ReleaseMaxSize {
        SendErr();
        return;
      }
      refused := false;
      WriteOk();
    }

    /** Everything after the metadata's MAC (lines 331-510). */
    method AcceptMetadata(ghost stored: Bytes, metadata: Bytes) returns (h: Option<Halt>)
      requires Valid() && |metadata| == FwMetadataSize && stored == flash[MetadataBase..MetadataBase + 2]
      modifies this, data, releaseMessage
      ensures Valid()
      ensures Concluded(Announced(secrets, stored, metadata, old(input), old(data[..])), h, old(output), old(flash))
    {
      ghost var o0 := output;
      var refused, d := CheckMetadata(stored, metadata);
      if refused {
        assert Transcript(Halted(0, Reset)) == [Error];
        return Some(Reset);
      }
      assert Repeat(1, Ok) == [Ok];
      h := UpdateAndInstall(stored, metadata, d, 1, o0);
    }

    /** Lines 355-510: receive and check the update, then flash it, after
        `n` acknowledgements that brought the output from `output0`. */
    method UpdateAndInstall(ghost stored: Bytes, metadata: Bytes, d: Metadata, ghost n: nat, ghost output0: Bytes)
      returns (h: Option<Halt>)
      requires Valid() && |metadata| == FwMetadataSize && stored == flash[MetadataBase..MetadataBase + 2]
      requires d.size <= FwMaxSize && d.msgSize <= ReleaseMaxSize
      requires output == output0 + Repeat(n, Ok)
      modifies this, data, releaseMessage
      ensures Valid()
      ensures Concluded(Later(n, AfterMetadata(secrets, stored, metadata, d, old(input), old(data[..]))), h, output0, old(flash))
    {
      ghost var after := AfterMetadata(secrets, stored, metadata, d, input, data[..]);
      TranscriptLater(n, after);
      h := ReceiveUpdate(stored, metadata, d);
      if h.Some? {
        return;
      }
      InstallFirmware(d.size, metadata, d.msgSize, d.version);
    }

    /** `load_initial_firmware` (lines 109-140): on a flash whose metadata
        word reads 0xFFFFFFFF, flash the metadata of version 2, the initial
        release message and the linked-in firmware image; otherwise do
        nothing. */
    method LoadInitialFirmware(image: Bytes)
      requires Valid() && FwBase + |image| + FlashPageSize <= FlashSize
      modifies this
      ensures Valid() && input == old(input) && output == old(output)
      ensures old(flash[MetadataBase..MetadataBase + 4]) == Repeat(4, 0xFF) ==> flash == InitialFlash(old(flash), image)
      ensures old(flash[MetadataBase..MetadataBase + 4]) != Repeat(4, 0xFF) ==> flash == old(flash)
    {
      if flash[MetadataBase..MetadataBase + 4] != Repeat(4, 0xFF) {
        return;
      }
      var size := |image|;
      var metadata := EncodeMetadata(InitialVersion, size, InitialMessageSize);
      ProgramFlash(MetadataBase, metadata);
      ProgramFlash(ReleaseBase, InitialMessageBytes);
      FlashImage(image);
    }

    /** Lines 135-139: the whole pages of the image, then the page with what is left. */
    method FlashImage(image: Bytes)
      requires Valid() && FwBase + |image| + FlashPageSize <= FlashSize
      modifies this
      ensures Valid() && input == old(input) && output == old(output)
      ensures flash == InitialPages(old(flash), image, FwBase)
    {
      var size := |image|;
      var i := 0;
      var at := 0;
      while i < size / FlashPageSize
        invariant Valid() && input == old(input) && output == old(output)
        invariant i <= size / FlashPageSize && at == FlashPageSize * i
        invariant InitialPages(flash, image[at..], FwBase + at) == InitialPages(old(flash), image, FwBase)
      {
        WholePage(size, i);
        InitialPagesTurn(flash, image, at, FwBase + at);
        ProgramFlash(FwBase + at, image[at..at + FlashPageSize]);
        i := i + 1;
        at := at + FlashPageSize;
      }
      WholePage(size, i);
      ProgramFlash(FwBase + at, image[at..at + size % FlashPageSize]);
      assert image[at..at + size % FlashPageSize] == image[at..];
    }
  }
}
