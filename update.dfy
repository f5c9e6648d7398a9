/** The update sender of tools/fw_update.py: a stop-and-wait transfer of a
    protected blob over a serial line.  After a one-byte handshake the blob
    is written unit by unit (metadata, each frame, four trailer units); each
    unit must be answered by a single zero byte before the next one is
    written, and a two-byte zero terminator ends the transfer.

    The serial port is an object holding the log of writes and the queue of
    bytes the device will answer with.  The transfer is specified in two
    steps: `UnitPlan` says which units a blob is cut into (this depends on
    the blob alone), and `Finish` says how many of them the answers let
    through. */
module Update {
  import opened Bytes
  import opened Wrappers

  const RespOk: byte := 0x00
  /** The handshake byte `'U'`. */
  const Sentinel: byte := 0x55
  const FwMetadataSize := 6
  const PageSize := 1024
  const FrMetadataSize := 6
  const HmacSize := 32
  const TagSize := 16
  const IvSize := 16
  /** `struct.pack('>H', 0x0000)`, written once after the last unit. */
  const Terminator: Bytes := [0x00, 0x00]

  datatype Fault =
    | Malformed                         // struct.unpack on a slice shorter than 2 bytes
    | OrderError(expected: nat, found: u16)
    | NotAcknowledged(response: Bytes)  // send_data's RuntimeError: the reply byte, or b'' on timeout
    | HandshakeDecode(reply: byte)      // ser.read(1).decode() on a byte that is not ASCII
    | NoHandshake                       // the device never sends 'U'

  datatype Outcome = Done | Aborted(fault: Fault)

  /** A serial line: every `write` is logged as one entry; `read()` takes one
      byte from the device's replies, or nothing once they are exhausted (a
      timeout). */
  class SerialPort {
    var writes: seq<Bytes>
    var replies: Bytes

    constructor (replies: Bytes)
      ensures writes == [] && this.replies == replies
    {
      writes := [];
      this.replies := replies;
    }

    method Write(data: Bytes)
      modifies this
      ensures writes == old(writes) + [data] && replies == old(replies)
    {
      writes := writes + [data];
    }

    method Read() returns (r: Bytes)
      modifies this
      ensures r == Take(old(replies), 1) && replies == Drop(old(replies), 1)
      ensures writes == old(writes)
    {
      r := Take(replies, 1);
      replies := Drop(replies, 1);
    }
  }

  /** `send_data` (lines 54-74): write `data[:length]`, read one byte, and
      hand back `data[length:]` only if that byte is zero. */
  method SendData(ser: SerialPort, data: Bytes, length: nat) returns (r: Result<Bytes, Fault>)
    modifies ser
    ensures ser.writes == old(ser.writes) + [Take(data, length)]
    ensures ser.replies == Drop(old(ser.replies), 1)
    ensures r == if Take(old(ser.replies), 1) == [RespOk] then Success(Drop(data, length))
                 else Failure(NotAcknowledged(Take(old(ser.replies), 1)))
  {
    ser.Write(Take(data, length));
    var resp := ser.Read();
    if resp != [RespOk] {
      return Failure(NotAcknowledged(resp));
    }
    return Success(Drop(data, length));
  }

  // ---------------------------------------------------------------------
  // Which units a blob is cut into.

  /** Units cut from the front of `blob`, the local fault that stopped the
      cutting (or `Done`), and what is left of the blob. */
  datatype Split = Split(units: seq<Bytes>, local: Outcome, rest: Bytes)

  /** Frames `i` to `n - 1` (lines 104-114): the index and size are read from
      the head of what is left of the blob; a short head or an index other
      than `i` stops the cutting. */
  function FrameUnits(blob: Bytes, i: nat, n: nat): (s: Split)
    ensures i <= n ==> |s.units| <= n - i
    ensures i <= n && s.local.Done? ==> |s.units| == n - i
    decreases n - i
  {
    if i >= n then Split([], Done, blob)
    else if |blob| < 4 then Split([], Aborted(Malformed), blob)
    else if U16At(blob, 0) != i then Split([], Aborted(OrderError(i, U16At(blob, 0))), blob)
    else
      var len := FrMetadataSize + U16At(blob, 2) + HmacSize * 2;
      var s := FrameUnits(Drop(blob, len), i + 1, n);
      Split([Take(blob, len)] + s.units, s.local, s.rest)
  }

  /** Consecutive units of the given lengths cut from the front of `blob`. */
  function Cut(blob: Bytes, lengths: seq<nat>): (s: Split)
    ensures |s.units| == |lengths| && s.local == Done
    decreases |lengths|
  {
    if lengths == [] then Split([], Done, blob)
    else
      var s := Cut(Drop(blob, lengths[0]), lengths[1..]);
      Split([Take(blob, lengths[0])] + s.units, Done, s.rest)
  }

  /** Lines 121-131: firmware MAC, message and its MAC, big MAC, IV and tag. */
  function TrailerLengths(messageSize: u16): seq<nat>
  {
    [HmacSize, messageSize + HmacSize, HmacSize, IvSize + TagSize]
  }

  /** What is still to be cut once frames `0 .. i - 1` are gone. */
  function Remaining(blob: Bytes, i: nat, n: nat, messageSize: u16): Split
  {
    ThenCut(FrameUnits(blob, i, n), TrailerLengths(messageSize))
  }

  /** After the frames, unless they aborted, the units of the given lengths. */
  function ThenCut(f: Split, lengths: seq<nat>): Split
  {
    if f.local.Aborted? then f
    else
      var t := Cut(f.rest, lengths);
      Split(f.units + t.units, Done, t.rest)
  }

  /** A unit in front of the frames stays in front. */
  lemma ThenCutCons(u: Bytes, f: Split, lengths: seq<nat>)
    ensures var r := ThenCut(f, lengths);
      ThenCut(Split([u] + f.units, f.local, f.rest), lengths) == Split([u] + r.units, r.local, r.rest)
  {
    if f.local.Done? {
      var t := Cut(f.rest, lengths);
      assert [u] + f.units + t.units == [u] + (f.units + t.units);
    }
  }

  /** Firmware size and message size from bytes 2-5, and the page count
      `ceil(FIRMWARE_SIZE / 1024)` (lines 89-93). */
  function PageNumber(blob: Bytes): nat
    requires |blob| >= 6
  {
    CeilDiv(U16At(blob, 2), PageSize)
  }

  function UnitPlan(blob: Bytes): Split
    requires |blob| >= 6
  {
    var r := Remaining(Drop(blob, FwMetadataSize + HmacSize), 0, PageNumber(blob), U16At(blob, 4));
    Split([Take(blob, FwMetadataSize + HmacSize)] + r.units, r.local, r.rest)
  }

  function Sum(lengths: seq<nat>): nat
  {
    if lengths == [] then 0 else lengths[0] + Sum(lengths[1..])
  }

  /** Cutting loses and repeats nothing: the units, in order, followed by
      what is left, are the blob; and what is left is exactly what the
      lengths do not reach. */
  lemma CutCovers(blob: Bytes, lengths: seq<nat>)
    ensures Flatten(Cut(blob, lengths).units) + Cut(blob, lengths).rest == blob
    ensures Sum(lengths) <= |blob| ==> |Cut(blob, lengths).rest| == |blob| - Sum(lengths)
  {
    CutFlattens(blob, lengths);
    if Sum(lengths) <= |blob| {
      CutLeaves(blob, lengths);
    }
  }

  lemma {:induction false} CutFlattens(blob: Bytes, lengths: seq<nat>)
    ensures Flatten(Cut(blob, lengths).units) + Cut(blob, lengths).rest == blob
    decreases |lengths|
  {
    if lengths != [] {
      var head := Take(blob, lengths[0]);
      var more := Drop(blob, lengths[0]);
      var s := Cut(more, lengths[1..]);
      CutFlattens(more, lengths[1..]);
      FlattenCons(head, s.units);
    }
  }

  lemma {:induction false} CutLeaves(blob: Bytes, lengths: seq<nat>)
    requires Sum(lengths) <= |blob|
    ensures |Cut(blob, lengths).rest| == |blob| - Sum(lengths)
    decreases |lengths|
  {
    if lengths != [] {
      CutLeaves(Drop(blob, lengths[0]), lengths[1..]);
    }
  }

  lemma {:induction false} FrameUnitsCover(blob: Bytes, i: nat, n: nat)
    ensures Flatten(FrameUnits(blob, i, n).units) + FrameUnits(blob, i, n).rest == blob
    decreases n - i
  {
    if i < n && |blob| >= 4 && U16At(blob, 0) == i {
      var len := FrMetadataSize + U16At(blob, 2) + HmacSize * 2;
      var s := FrameUnits(Drop(blob, len), i + 1, n);
      FrameUnitsCover(Drop(blob, len), i + 1, n);
      assert FrameUnits(blob, i, n) == Split([Take(blob, len)] + s.units, s.local, s.rest);
      FlattenCons(Take(blob, len), s.units);
      TakeDrop(blob, len);
    }
  }

  /** The sender cuts the blob in order, never skipping or repeating a byte:
      the planned units followed by what the plan leaves unsent are the blob. */
  lemma PlanCovers(blob: Bytes)
    requires |blob| >= 6
    ensures Flatten(UnitPlan(blob).units) + UnitPlan(blob).rest == blob
  {
    var head := Take(blob, FwMetadataSize + HmacSize);
    var tail := Drop(blob, FwMetadataSize + HmacSize);
    var n := PageNumber(blob);
    var ms := U16At(blob, 4);
    var r := Remaining(tail, 0, n, ms);
    RemainingCovers(tail, 0, n, ms);
    var units := [head] + r.units;
    assert UnitPlan(blob) == Split(units, r.local, r.rest);
    assert units[0] == head && units[1..] == r.units;
    assert Flatten(units) == head + Flatten(r.units);
    calc {
      Flatten(units) + r.rest;
      head + (Flatten(r.units) + r.rest);
      head + tail;
      blob;
    }
  }

  lemma RemainingCovers(blob: Bytes, i: nat, n: nat, messageSize: u16)
    ensures Flatten(Remaining(blob, i, n, messageSize).units) + Remaining(blob, i, n, messageSize).rest == blob
  {
    var f := FrameUnits(blob, i, n);
    FrameUnitsCover(blob, i, n);
    if f.local.Done? {
      var t := Cut(f.rest, TrailerLengths(messageSize));
      CutCovers(f.rest, TrailerLengths(messageSize));
      FlattenCover(f.units, t.units, f.rest, t.rest, blob);
    }
  }

  // ---------------------------------------------------------------------
  // How far the device's answers let the transfer go.

  /** What the line carries and how the transfer ends: all writes so far,
      the outcome, and the replies not read. */
  datatype Session = Session(writes: seq<Bytes>, outcome: Outcome, replies: Bytes)

  /** The rest of a transfer that has written `written` and still has `todo`
      to send; `local` is the fault the sender will raise once `todo` is
      through, if any.  Units are written in order; after each one a byte
      is read, and anything but a zero byte ends the transfer. */
  function Finish(written: seq<Bytes>, todo: seq<Bytes>, local: Outcome, replies: Bytes): Session
    decreases |todo|
  {
    if todo == [] then
      if local.Aborted? then Session(written, local, replies)
      else Session(written + [Terminator], Done, replies)
    else if Take(replies, 1) != [RespOk] then
      Session(written + [todo[0]], Aborted(NotAcknowledged(Take(replies, 1))), Drop(replies, 1))
    else Finish(written + [todo[0]], todo[1..], local, replies[1..])
  }

  /** The handshake of lines 96-98: skip reply bytes until `'U'`. */
  function Handshake(replies: Bytes): (r: (Outcome, Bytes))
    ensures |r.1| < |replies| || (r.0 == Aborted(NoHandshake) && r.1 == [])
  {
    if replies == [] then (Aborted(NoHandshake), [])
    else if replies[0] >= 0x80 then (Aborted(HandshakeDecode(replies[0])), replies[1..])
    else if replies[0] == Sentinel then (Done, replies[1..])
    else Handshake(replies[1..])
  }

  function Delivery(blob: Bytes, replies: Bytes): Session
  {
    if |blob| < 6 then Session([], Aborted(Malformed), replies)
    else
      var hs := Handshake(replies);
      if hs.0.Aborted? then Session([[Sentinel]], hs.0, hs.1)
      else
        var plan := UnitPlan(blob);
        Finish([[Sentinel]], plan.units, plan.local, hs.1)
  }

  // ---------------------------------------------------------------------
  // What the answers decide.

  predicate AllZero(s: Bytes)
  {
    forall k :: 0 <= k < |s| ==> s[k] == RespOk
  }

  /** Every unit acknowledged: all of them go out and the replies are
      consumed one byte per unit. */
  lemma {:induction false} FinishAllZero(written: seq<Bytes>, todo: seq<Bytes>, local: Outcome, replies: Bytes)
    requires |todo| <= |replies| && AllZero(replies[..|todo|])
    ensures Finish(written, todo, local, replies) == Finish(written + todo, [], local, replies[|todo|..])
    decreases |todo|
  {
    if todo != [] {
      assert replies[..1] == [RespOk] by { assert replies[..|todo|][0] == replies[0]; }
      assert replies[1..][..|todo| - 1] == replies[..|todo|][1..];
      FinishAllZero(written + [todo[0]], todo[1..], local, replies[1..]);
      assert replies[1..][|todo| - 1..] == replies[|todo|..];
      assert written + [todo[0]] + todo[1..] == written + todo;
    }
  }

  /** The first answer that is not a zero byte (or a read that times out,
      `replies` exhausted) ends the transfer right after unit `j`: nothing
      after it is written. */
  lemma {:induction false} FinishFirstRefusal(written: seq<Bytes>, todo: seq<Bytes>, local: Outcome, replies: Bytes, j: nat)
    requires j < |todo| && j <= |replies| && AllZero(replies[..j])
    requires j == |replies| || replies[j] != RespOk
    ensures Finish(written, todo, local, replies)
         == Session(written + todo[..j + 1], Aborted(NotAcknowledged(Take(replies[j..], 1))), Drop(replies[j..], 1))
    decreases j
  {
    if j > 0 {
      assert replies[..1] == [RespOk] by { assert replies[..j][0] == replies[0]; }
      assert replies[1..][..j - 1] == replies[..j][1..];
      FinishFirstRefusal(written + [todo[0]], todo[1..], local, replies[1..], j - 1);
      assert replies[1..][j - 1..] == replies[j..];
      assert written + [todo[0]] + todo[1..][..j] == written + todo[..j + 1];
    } else {
      assert todo[..1] == [todo[0]];
    }
  }

  /** Whatever the answers, the rest of a transfer writes a prefix of what
      it has to send, and the terminator exactly when it succeeds. */
  lemma {:induction false} FinishWritesPrefix(written: seq<Bytes>, todo: seq<Bytes>, local: Outcome, replies: Bytes)
    ensures var s := Finish(written, todo, local, replies);
      exists m :: 0 <= m <= |todo| &&
        s.writes == written + todo[..m] + (if s.outcome.Done? then [Terminator] else [])
    ensures Finish(written, todo, local, replies).outcome.Done? ==> local.Done?
    decreases |todo|
  {
    var s := Finish(written, todo, local, replies);
    if todo == [] {
      assert s.writes == written + todo[..0] + (if s.outcome.Done? then [Terminator] else []);
    } else if Take(replies, 1) != [RespOk] {
      assert s.writes == written + todo[..1] + [];
    } else {
      FinishWritesPrefix(written + [todo[0]], todo[1..], local, replies[1..]);
      var m :| 0 <= m <= |todo[1..]| &&
        s.writes == written + [todo[0]] + todo[1..][..m] + (if s.outcome.Done? then [Terminator] else []);
      assert written + [todo[0]] + todo[1..][..m] == written + todo[..m + 1];
    }
  }

  /** Whatever the device answers, the line carries `'U'`, then a prefix of
      the planned units, and the terminator exactly when the transfer
      succeeds. */
  lemma DeliveryWritesPlanPrefix(blob: Bytes, replies: Bytes)
    requires |blob| >= 6
    ensures var s := Delivery(blob, replies);
      var plan := UnitPlan(blob);
      exists m :: 0 <= m <= |plan.units| &&
        s.writes == [[Sentinel]] + plan.units[..m] + (if s.outcome.Done? then [Terminator] else [])
    ensures Delivery(blob, replies).outcome.Done? ==> UnitPlan(blob).local.Done?
  {
    var plan := UnitPlan(blob);
    var hs := Handshake(replies);
    if hs.0.Aborted? {
      assert Delivery(blob, replies).writes == [[Sentinel]] + plan.units[..0];
    } else {
      FinishWritesPrefix([[Sentinel]], plan.units, plan.local, hs.1);
    }
  }

  // ---------------------------------------------------------------------
  // Steps of the transfer, as the sender takes them.

  /** Sending one unit and reading its answer, seen on the specification. */
  method SendUnit(ser: SerialPort, data: Bytes, length: nat,
                  ghost written: seq<Bytes>, ghost todo: seq<Bytes>, ghost local: Outcome, ghost s: Session)
    returns (r: Result<Bytes, Fault>, ghost written': seq<Bytes>)
    requires todo != [] && todo[0] == Take(data, length)
    requires s == Finish(written, todo, local, ser.replies)
    modifies ser
    ensures ser.writes == old(ser.writes) + [Take(data, length)] && written' == written + [todo[0]]
    ensures r.Success? ==> r.value == Drop(data, length) && s == Finish(written', todo[1..], local, ser.replies)
    ensures r.Failure? ==> s == Session(written', Aborted(r.error), ser.replies)
  {
    written' := written + [todo[0]];
    r := SendData(ser, data, length);
  }

  lemma RemainingStep(blob: Bytes, i: nat, n: nat, messageSize: u16)
    requires i < n && |blob| >= 4 && U16At(blob, 0) == i
    ensures var len := FrMetadataSize + U16At(blob, 2) + HmacSize * 2;
      var r := Remaining(Drop(blob, len), i + 1, n, messageSize);
      Remaining(blob, i, n, messageSize) == Split([Take(blob, len)] + r.units, r.local, r.rest)
  {
    var len := FrMetadataSize + U16At(blob, 2) + HmacSize * 2;
    FramesThenCutStep(blob, i, n, TrailerLengths(messageSize));
  }

  lemma FramesThenCutStep(blob: Bytes, i: nat, n: nat, lengths: seq<nat>)
    requires i < n && |blob| >= 4 && U16At(blob, 0) == i
    ensures var len := FrMetadataSize + U16At(blob, 2) + HmacSize * 2;
      var r := ThenCut(FrameUnits(Drop(blob, len), i + 1, n), lengths);
      ThenCut(FrameUnits(blob, i, n), lengths) == Split([Take(blob, len)] + r.units, r.local, r.rest)
  {
    var len := FrMetadataSize + U16At(blob, 2) + HmacSize * 2;
    FrameUnitsStep(blob, i, n);
    ThenCutCons(Take(blob, len), FrameUnits(Drop(blob, len), i + 1, n), lengths);
  }

  lemma FrameUnitsStep(blob: Bytes, i: nat, n: nat)
    requires i < n && |blob| >= 4 && U16At(blob, 0) == i
    ensures var len := FrMetadataSize + U16At(blob, 2) + HmacSize * 2;
      var f := FrameUnits(Drop(blob, len), i + 1, n);
      FrameUnits(blob, i, n) == Split([Take(blob, len)] + f.units, f.local, f.rest)
  {
  }

  /** Lines 95-98: write `'U'`, then read until the device answers `'U'`. */
  method AwaitSentinel(ser: SerialPort) returns (outcome: Outcome)
    modifies ser
    ensures ser.writes == old(ser.writes) + [[Sentinel]]
    ensures (outcome, ser.replies) == Handshake(old(ser.replies))
  {
    ser.Write([Sentinel]);
    ghost var hs := Handshake(ser.replies);
    while true
      invariant ser.writes == old(ser.writes) + [[Sentinel]]
      invariant Handshake(ser.replies) == hs
      decreases |ser.replies|
    {
      var resp := ser.Read();
      if resp == [] {
        // Every further read times out as well: the source loops forever.
        return Aborted(NoHandshake);
      }
      if resp[0] >= 0x80 {
        return Aborted(HandshakeDecode(resp[0]));
      }
      if resp[0] == Sentinel {
        return Done;
      }
    }
  }

  /** The frame loop of lines 104-114: each frame's index is checked before
      anything of it is written. */
  method SendFrames(ser: SerialPort, blob: Bytes, pageNumber: nat, messageSize: u16,
                    ghost base: seq<Bytes>, ghost written: seq<Bytes>, ghost todo: seq<Bytes>,
                    ghost local: Outcome, ghost spec: Session)
    returns (r: Result<Bytes, Fault>, ghost written': seq<Bytes>, ghost todo': seq<Bytes>)
    requires Remaining(blob, 0, pageNumber, messageSize).units == todo
    requires Remaining(blob, 0, pageNumber, messageSize).local == local
    requires ser.writes == base + written
    requires spec == Finish(written, todo, local, ser.replies)
    modifies ser
    ensures ser.writes == base + written'
    ensures r.Success? ==> local.Done? && todo' == Cut(r.value, TrailerLengths(messageSize)).units
                           && spec == Finish(written', todo', local, ser.replies)
    ensures r.Failure? ==> spec == Session(written', Aborted(r.error), ser.replies)
  {
    var rest := blob;
    written', todo' := written, todo;
    var i := 0;
    while i < pageNumber
      invariant ser.writes == base + written'
      invariant Remaining(rest, i, pageNumber, messageSize).units == todo'
      invariant Remaining(rest, i, pageNumber, messageSize).local == local
      invariant spec == Finish(written', todo', local, ser.replies)
      decreases pageNumber - i
    {
      if |rest| < 4 {
        return Failure(Malformed), written', todo';
      }
      var frameIndex := U16At(rest, 0);
      var frOut := U16At(rest, 2);
      if frameIndex != i {
        return Failure(OrderError(i, frameIndex)), written', todo';
      }
      RemainingStep(rest, i, pageNumber, messageSize);
      r, written' := SendUnit(ser, rest, FrMetadataSize + frOut + HmacSize * 2, written', todo', local, spec);
      if r.Failure? {
        return;
      }
      rest := r.value;
      todo' := todo'[1..];
      i := i + 1;
    }
    return Success(rest), written', todo';
  }

  /** One trailer unit of `length` bytes; `more` are the lengths of the units after it. */
  method SendPiece(ser: SerialPort, rest: Bytes, length: nat, ghost more: seq<nat>,
                   ghost written: seq<Bytes>, ghost spec: Session)
    returns (r: Result<Bytes, Fault>, ghost written': seq<Bytes>)
    requires spec == Finish(written, Cut(rest, [length] + more).units, Done, ser.replies)
    modifies ser
    ensures ser.writes == old(ser.writes) + [Take(rest, length)] && written' == written + [Take(rest, length)]
    ensures r.Success? ==> spec == Finish(written', Cut(r.value, more).units, Done, ser.replies)
    ensures r.Failure? ==> spec == Session(written', Aborted(r.error), ser.replies)
  {
    assert ([length] + more)[0] == length && ([length] + more)[1..] == more;
    r, written' := SendUnit(ser, rest, length, written, Cut(rest, [length] + more).units, Done, spec);
  }

  /** The trailer of lines 121-131, each unit acknowledged in turn: the
      firmware MAC and the release message here, the rest in `SendSeal`. */
  method SendTrailer(ser: SerialPort, blob: Bytes, messageSize: u16,
                     ghost base: seq<Bytes>, ghost written: seq<Bytes>, ghost spec: Session)
    returns (r: Result<Bytes, Fault>, ghost written': seq<Bytes>)
    requires ser.writes == base + written
    requires spec == Finish(written, Cut(blob, TrailerLengths(messageSize)).units, Done, ser.replies)
    modifies ser
    ensures ser.writes == base + written'
    ensures r.Success? ==> spec == Session(written' + [Terminator], Done, ser.replies)
    ensures r.Failure? ==> spec == Session(written', Aborted(r.error), ser.replies)
  {
    ghost var seal: seq<nat> := [HmacSize, IvSize + TagSize];
    ghost var release := [messageSize + HmacSize] + seal;
    assert TrailerLengths(messageSize) == [HmacSize] + release;
    r, written' := SendPiece(ser, blob, HmacSize, release, written, spec);
    if r.Failure? {
      return;
    }
    r, written' := SendPiece(ser, r.value, messageSize + HmacSize, seal, written', spec);
    if r.Failure? {
      return;
    }
    r, written' := SendSeal(ser, r.value, base, written', spec);
  }

  /** Lines 127-131: the MAC over firmware, metadata and message, then IV and tag. */
  method SendSeal(ser: SerialPort, blob: Bytes, ghost base: seq<Bytes>, ghost written: seq<Bytes>, ghost spec: Session)
    returns (r: Result<Bytes, Fault>, ghost written': seq<Bytes>)
    requires ser.writes == base + written
    requires spec == Finish(written, Cut(blob, [HmacSize, IvSize + TagSize]).units, Done, ser.replies)
    modifies ser
    ensures ser.writes == base + written'
    ensures r.Success? ==> spec == Session(written' + [Terminator], Done, ser.replies)
    ensures r.Failure? ==> spec == Session(written', Aborted(r.error), ser.replies)
  {
    ghost var last: seq<nat> := [IvSize + TagSize];
    assert [HmacSize, IvSize + TagSize] == [HmacSize] + last;
    r, written' := SendPiece(ser, blob, HmacSize, last, written, spec);
    if r.Failure? {
      return;
    }
    assert last == [IvSize + TagSize] + [];
    r, written' := SendPiece(ser, r.value, IvSize + TagSize, [], written', spec);
  }

  /** `main` (lines 77-136), from the blob already read from its file. */
  method Deliver(ser: SerialPort, firmwareBlob: Bytes) returns (outcome: Outcome)
    modifies ser
    ensures var s := Delivery(firmwareBlob, old(ser.replies));
      ser.writes == old(ser.writes) + s.writes && ser.replies == s.replies && outcome == s.outcome
  {
    ghost var spec := Delivery(firmwareBlob, ser.replies);
    ghost var base := ser.writes;
    if |firmwareBlob| < 6 {
      return Aborted(Malformed);
    }
    var firmwareSize := U16At(firmwareBlob, 2);
    var releaseMessageSize := U16At(firmwareBlob, 4);
    var pageNumber := CeilDiv(firmwareSize, PageSize);

    outcome := AwaitSentinel(ser);
    if outcome.Aborted? {
      return;
    }

    ghost var plan := UnitPlan(firmwareBlob);
    var r;
    ghost var written;
    r, written := SendUnit(ser, firmwareBlob, FwMetadataSize + HmacSize, [[Sentinel]], plan.units, plan.local, spec);
    if r.Failure? {
      return Aborted(r.error);
    }
    ghost var todo;
    r, written, todo := SendFrames(ser, r.value, pageNumber, releaseMessageSize, base, written, plan.units[1..], plan.local, spec);
    if r.Failure? {
      return Aborted(r.error);
    }
    r, written := SendTrailer(ser, r.value, releaseMessageSize, base, written, spec);
    if r.Failure? {
      return Aborted(r.error);
    }
    ser.Write(Terminator);
    return Done;
  }
}
