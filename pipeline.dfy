/** The bundler and the update sender together: how the sender cuts a blob
    built by `protect_firmware` into units, and what reaches the line. */
module Pipeline {
  import opened Bytes
  import opened Crypto
  import opened Wrappers
  import Utf8
  import Protect
  import Update

  /** Frame `k` on the wire as one unit. */
  function FrameUnitSeq(frames: seq<Protect.Frame>): (units: seq<Bytes>)
    ensures |units| == |frames|
    ensures forall k :: 0 <= k < |frames| ==> units[k] == Protect.FrameBytes(frames[k])
  {
    if frames == [] then [] else [Protect.FrameBytes(frames[0])] + FrameUnitSeq(frames[1..])
  }

  /** Frames numbered consecutively from `i`, each header giving its payload length. */
  predicate InOrder(frames: seq<Protect.Frame>, i: nat)
  {
    forall k :: 0 <= k < |frames| ==> frames[k].index == i + k && frames[k].size == |frames[k].payload|
  }

  lemma {:induction false} FlattenFrameUnits(frames: seq<Protect.Frame>)
    ensures Flatten(FrameUnitSeq(frames)) == Protect.Wire(frames)
    decreases |frames|
  {
    if frames != [] {
      FlattenFrameUnits(frames[1..]);
      assert FrameUnitSeq(frames)[1..] == FrameUnitSeq(frames[1..]);
    }
  }

  /** A unit the sender's frame loop accepts as frame `index`: its header
      carries that index and a size that accounts for the rest of the unit. */
  predicate FrameUnit(u: Bytes, index: nat)
  {
    |u| >= Protect.FrameOverhead && U16At(u, 0) == index && |u| == Protect.FrameOverhead + U16At(u, 2)
  }

  /** Units `i`, `i + 1`, ... of the frame loop, in order. */
  predicate FrameUnitsFrom(us: seq<Bytes>, i: nat)
    decreases |us|
  {
    us == [] || (FrameUnit(us[0], i) && FrameUnitsFrom(us[1..], i + 1))
  }

  lemma InOrderTail(frames: seq<Protect.Frame>, i: nat)
    requires frames != [] && InOrder(frames, i)
    ensures InOrder(frames[1..], i + 1)
  {
    forall k | 0 <= k < |frames| - 1
      ensures frames[1..][k].index == i + 1 + k && frames[1..][k].size == |frames[1..][k].payload|
    {
      assert frames[1..][k] == frames[k + 1];
    }
  }

  /** The bytes of a frame whose size field is its payload length form a unit with its index. */
  lemma FrameBytesUnit(f: Protect.Frame)
    requires f.size == |f.payload|
    ensures FrameUnit(Protect.FrameBytes(f), f.index)
  {
    var header := Protect.Pack3(f.index, f.size, f.version);
    U16AtPrefix(header, f.headerMac + f.payload + f.payloadMac, 0);
    U16AtPrefix(header, f.headerMac + f.payload + f.payloadMac, 2);
    assert Protect.FrameBytes(f) == header + (f.headerMac + f.payload + f.payloadMac);
  }

  lemma {:induction false} FrameUnitsOfFrames(frames: seq<Protect.Frame>, i: nat)
    requires InOrder(frames, i)
    ensures FrameUnitsFrom(FrameUnitSeq(frames), i)
    decreases |frames|
  {
    if frames != [] {
      FrameBytesUnit(frames[0]);
      InOrderTail(frames, i);
      FrameUnitsOfFrames(frames[1..], i + 1);
    }
  }

  /** One step of the sender's frame loop over a unit at the head of its
      input, with the expected index and with another one. */
  lemma UnitAtHead(u: Bytes, more: Bytes, i: nat, n: nat, units: seq<Bytes>, local: Update.Outcome, tail: Bytes)
    requires FrameUnit(u, i) && i < n
    requires Update.FrameUnits(more, i + 1, n) == Update.Split(units, local, tail)
    ensures Update.FrameUnits(u + more, i, n) == Update.Split([u] + units, local, tail)
  {
    U16AtPrefix(u, more, 0);
    U16AtPrefix(u, more, 2);
    TakeDropConcat(u, more);
  }

  lemma MismatchAtHead(bad: Bytes, i: nat, n: nat)
    requires |bad| >= 4 && U16At(bad, 0) != i && i < n
    ensures Update.FrameUnits(bad, i, n) == Update.Split([], Update.Aborted(Update.OrderError(i, U16At(bad, 0))), bad)
  {
  }

  lemma FlattenHead(us: seq<Bytes>, tail: Bytes)
    requires us != []
    ensures Flatten(us) + tail == us[0] + (Flatten(us[1..]) + tail)
  {
  }

  /** Units in order, followed by whatever ends the frame loop at the
      index after them, are cut into those units and end the same way. */
  lemma {:induction false} FrameUnitsThenEnd(us: seq<Bytes>, tail: Bytes, i: nat, n: nat, local: Update.Outcome)
    requires FrameUnitsFrom(us, i) && i + |us| <= n
    requires Update.FrameUnits(tail, i + |us|, n) == Update.Split([], local, tail)
    ensures Update.FrameUnits(Flatten(us) + tail, i, n) == Update.Split(us, local, tail)
    decreases |us|
  {
    if us == [] {
      assert Flatten(us) + tail == tail;
    } else {
      assert i + 1 + |us[1..]| == i + |us|;
      FrameUnitsThenEnd(us[1..], tail, i + 1, n, local);
      UnitsStep(us, tail, i, n, local);
    }
  }

  /** Units in order are cut back into exactly those units. */
  lemma FrameUnitsInOrder(us: seq<Bytes>, tail: Bytes, i: nat, n: nat)
    requires FrameUnitsFrom(us, i) && n == i + |us|
    ensures Update.FrameUnits(Flatten(us) + tail, i, n) == Update.Split(us, Update.Done, tail)
  {
    FrameUnitsThenEnd(us, tail, i, n, Update.Done);
  }

  /** Units in order followed by one with another index: the sender cuts
      the units in order and stops at the stranger before cutting any of it. */
  lemma FrameUnitsStopAt(us: seq<Bytes>, bad: Bytes, i: nat, n: nat)
    requires FrameUnitsFrom(us, i) && i + |us| < n
    requires |bad| >= 4 && U16At(bad, 0) != i + |us|
    ensures Update.FrameUnits(Flatten(us) + bad, i, n)
         == Update.Split(us, Update.Aborted(Update.OrderError(i + |us|, U16At(bad, 0))), bad)
  {
    MismatchAtHead(bad, i + |us|, n);
    FrameUnitsThenEnd(us, bad, i, n, Update.Aborted(Update.OrderError(i + |us|, U16At(bad, 0))));
  }

  /** The frame loop over units in order, one unit at a time. */
  lemma UnitsStep(us: seq<Bytes>, tail: Bytes, i: nat, n: nat, local: Update.Outcome)
    requires us != [] && FrameUnitsFrom(us, i) && i < n
    requires Update.FrameUnits(Flatten(us[1..]) + tail, i + 1, n) == Update.Split(us[1..], local, tail)
    ensures Update.FrameUnits(Flatten(us) + tail, i, n) == Update.Split(us, local, tail)
  {
    UnitAtHead(us[0], Flatten(us[1..]) + tail, i, n, us[1..], local, tail);
    FlattenHead(us, tail);
    assert [us[0]] + us[1..] == us;
  }

  /** Frames in order are cut back into exactly those frames. */
  lemma FrameUnitsOfWire(frames: seq<Protect.Frame>, tail: Bytes, i: nat)
    requires FrameUnitsFrom(FrameUnitSeq(frames), i)
    ensures Update.FrameUnits(Protect.Wire(frames) + tail, i, i + |frames|)
         == Update.Split(FrameUnitSeq(frames), Update.Done, tail)
  {
    FlattenFrameUnits(frames);
    FrameUnitsInOrder(FrameUnitSeq(frames), tail, i, i + |frames|);
  }

  /** The frames of a ciphertext are numbered from 0, one per page, and
      each travels as a unit the sender's frame loop accepts. */
  lemma FramesInOrder(p: Primitives, macKey: Bytes, ct: Bytes, version: u16)
    requires |ct| < 0x1_0000
    ensures FrameUnitsFrom(FrameUnitSeq(Protect.Frames(p, macKey, ct, version)), 0)
    ensures |Protect.Frames(p, macKey, ct, version)| == CeilDiv(|ct|, Protect.PageSize)
  {
    var frames := Protect.Frames(p, macKey, ct, version);
    forall k | 0 <= k < |frames|
      ensures frames[k].index == k && frames[k].size == |frames[k].payload|
    {
      Protect.FramesShape(p, macKey, ct, version, k);
    }
    assert InOrder(frames, 0);
    FrameUnitsOfFrames(frames, 0);
    Protect.PageCount(ct);
  }

  // ---------------------------------------------------------------------
  // The trailer.

  lemma CutHead(a: Bytes, rest: Bytes, more: seq<nat>, units: seq<Bytes>, left: Bytes)
    requires Update.Cut(rest, more) == Update.Split(units, Update.Done, left)
    ensures Update.Cut(a + rest, [|a|] + more) == Update.Split([a] + units, Update.Done, left)
  {
    assert ([|a|] + more)[0] == |a| && ([|a|] + more)[1..] == more;
    TakeDropConcat(a, rest);
  }

  lemma SumCons(x: nat, l: seq<nat>)
    ensures Update.Sum([x] + l) == x + Update.Sum(l)
  {
    assert ([x] + l)[1..] == l;
  }

  lemma TrailerSum(messageSize: u16)
    ensures Update.Sum(Update.TrailerLengths(messageSize)) == messageSize + 128
  {
    var l3: seq<nat> := [Update.IvSize + Update.TagSize];
    var l2 := [Update.HmacSize] + l3;
    var l1 := [messageSize + Update.HmacSize] + l2;
    assert Update.TrailerLengths(messageSize) == [Update.HmacSize] + l1;
    assert l3 == [Update.IvSize + Update.TagSize] + [];
    SumCons(Update.IvSize + Update.TagSize, []);
    SumCons(Update.HmacSize, l3);
    SumCons(messageSize + Update.HmacSize, l2);
    SumCons(Update.HmacSize, l1);
  }

  /** Four units cut by their own lengths. */
  lemma CutFour(a: Bytes, b: Bytes, c: Bytes, d: Bytes)
    ensures Update.Cut(a + (b + (c + d)), [|a|, |b|, |c|, |d|]) == Update.Split([a, b, c, d], Update.Done, [])
  {
    var l3: seq<nat> := [|d|];
    var l2 := [|c|] + l3;
    var l1 := [|b|] + l2;
    assert [|a|, |b|, |c|, |d|] == [|a|] + l1;
    var u3 := [d];
    var u2 := [c] + u3;
    var u1 := [b] + u2;
    assert [a, b, c, d] == [a] + u1;
    assert l3 == [|d|] + [] && u3 == [d] + [] && d == d + [];
    CutHead(d, [], [], [], []);
    CutHead(c, d, l3, u3, []);
    CutHead(b, c + d, l2, u2, []);
    CutHead(a, b + (c + d), l1, u1, []);
  }

  /** With the right message length the trailer is cut into its four parts
      and nothing is left over. */
  lemma TrailerWhole(fwMac: Digest, msg: Bytes, msgMac: Digest, bigMac: Digest, iv: Block, tag: Block)
    requires |msg| < 0x1_0000
    ensures Update.Cut(fwMac + msg + msgMac + bigMac + iv + tag, Update.TrailerLengths(|msg|))
         == Update.Split([fwMac, msg + msgMac, bigMac, iv + tag], Update.Done, [])
  {
    assert Update.TrailerLengths(|msg|) == [|fwMac|, |msg + msgMac|, |bigMac|, |iv + tag|];
    assert fwMac + msg + msgMac + bigMac + iv + tag == fwMac + ((msg + msgMac) + (bigMac + (iv + tag)));
    CutFour(fwMac, msg + msgMac, bigMac, iv + tag);
  }

  /** With a message-size field `field` short of the `|msg|` bytes shipped,
      the trailer cuts leave the last `|msg| - field` bytes of the blob unsent. */
  lemma TrailerShort(fwMac: Digest, msg: Bytes, msgMac: Digest, bigMac: Digest, iv: Block, tag: Block, field: u16)
    requires field <= |msg|
    ensures |Update.Cut(fwMac + msg + msgMac + bigMac + iv + tag, Update.TrailerLengths(field)).rest| == |msg| - field
  {
    TrailerSum(field);
    Update.CutCovers(fwMac + msg + msgMac + bigMac + iv + tag, Update.TrailerLengths(field));
  }

  // ---------------------------------------------------------------------
  // Whole blobs.

  /** The units a blob is meant to travel in: metadata and its MAC, each
      frame, firmware MAC, message and its MAC, big MAC, IV and tag. */
  function BlobUnits(p: Primitives, macKey: Bytes, version: u16, ct: Bytes, msg: Bytes, iv: Block, tag: Block): seq<Bytes>
    requires |ct| < 0x1_0000 && |msg| < 0x1_0000
  {
    var metadata := Protect.Pack3(version, |ct|, |msg|);
    [metadata + Hmac(p, macKey, metadata)]
    + (FrameUnitSeq(Protect.Frames(p, macKey, ct, version))
       + [Hmac(p, macKey, ct), msg + Hmac(p, macKey, msg), Hmac(p, macKey, ct + metadata + msg), iv + tag])
  }

  /** The sender reads page count and message size from the first 38 bytes
      and cuts the rest from there. */
  lemma PlanOfHead(head: Bytes, rest: Bytes)
    requires |head| == Update.FwMetadataSize + Update.HmacSize
    ensures var r := Update.Remaining(rest, 0, CeilDiv(U16At(head, 2), Update.PageSize), U16At(head, 4));
      Update.UnitPlan(head + rest) == Update.Split([head] + r.units, r.local, r.rest)
  {
    U16AtPrefix(head, rest, 2);
    U16AtPrefix(head, rest, 4);
    TakeDropConcat(head, rest);
  }

  lemma RemainingAfterFrames(rest: Bytes, n: nat, messageSize: u16, units: seq<Bytes>, tail: Bytes)
    requires Update.FrameUnits(rest, 0, n) == Update.Split(units, Update.Done, tail)
    ensures var t := Update.Cut(tail, Update.TrailerLengths(messageSize));
      Update.Remaining(rest, 0, n, messageSize) == Update.Split(units + t.units, Update.Done, t.rest)
  {
  }

  /** A blob made of a 38-byte header, frame units in order as many as its
      page count, and a trailer is cut into header, frames and trailer units. */
  lemma PlanOfParts(head: Bytes, us: seq<Bytes>, trailer: Bytes)
    requires |head| == Update.FwMetadataSize + Update.HmacSize
    requires FrameUnitsFrom(us, 0) && |us| == CeilDiv(U16At(head, 2), Update.PageSize)
    ensures var t := Update.Cut(trailer, Update.TrailerLengths(U16At(head, 4)));
      Update.UnitPlan(head + (Flatten(us) + trailer)) == Update.Split([head] + (us + t.units), Update.Done, t.rest)
  {
    var n := CeilDiv(U16At(head, 2), Update.PageSize);
    FrameUnitsInOrder(us, trailer, 0, n);
    RemainingAfterFrames(Flatten(us) + trailer, n, U16At(head, 4), us, trailer);
    PlanOfHead(head, Flatten(us) + trailer);
  }

  /** The header of a blob carries the firmware length and the message-size field. */
  lemma BlobHead(p: Primitives, macKey: Bytes, version: u16, ctLength: u16, field: u16)
    ensures var metadata := Protect.Pack3(version, ctLength, field);
      var head := metadata + Hmac(p, macKey, metadata);
      |head| == Update.FwMetadataSize + Update.HmacSize && U16At(head, 2) == ctLength && U16At(head, 4) == field
  {
    var metadata := Protect.Pack3(version, ctLength, field);
    U16AtPrefix(metadata, Hmac(p, macKey, metadata), 2);
    U16AtPrefix(metadata, Hmac(p, macKey, metadata), 4);
  }

  /** The sender's view of a blob: header, frame units, then the trailer
      cut with the message length the metadata claims. */
  lemma BlobSplit(p: Primitives, macKey: Bytes, version: u16, ct: Bytes,
                  field: u16, msg: Bytes, iv: Block, tag: Block)
    requires |ct| < 0x1_0000
    ensures var blob := Protect.Blob(p, macKey, version, ct, field, msg, iv, tag);
      var metadata := Protect.Pack3(version, |ct|, field);
      var frames := Protect.Frames(p, macKey, ct, version);
      var trailer := Hmac(p, macKey, ct) + msg + Hmac(p, macKey, msg) + Hmac(p, macKey, ct + metadata + msg) + iv + tag;
      var t := Update.Cut(trailer, Update.TrailerLengths(field));
      |blob| >= 6
      && Update.UnitPlan(blob) == Update.Split([metadata + Hmac(p, macKey, metadata)] + (FrameUnitSeq(frames) + t.units), Update.Done, t.rest)
  {
    var blob := Protect.Blob(p, macKey, version, ct, field, msg, iv, tag);
    var metadata := Protect.Pack3(version, |ct|, field);
    var head := metadata + Hmac(p, macKey, metadata);
    var frames := Protect.Frames(p, macKey, ct, version);
    var trailer := Hmac(p, macKey, ct) + msg + Hmac(p, macKey, msg) + Hmac(p, macKey, ct + metadata + msg) + iv + tag;
    BlobHead(p, macKey, version, |ct|, field);
    FramesInOrder(p, macKey, ct, version);
    PlanOfParts(head, FrameUnitSeq(frames), trailer);
    BlobIsParts(p, macKey, version, ct, field, msg, iv, tag);
  }

  lemma BlobIsParts(p: Primitives, macKey: Bytes, version: u16, ct: Bytes,
                    field: u16, msg: Bytes, iv: Block, tag: Block)
    requires |ct| < 0x1_0000
    ensures var metadata := Protect.Pack3(version, |ct|, field);
      var frames := Protect.Frames(p, macKey, ct, version);
      var trailer := Hmac(p, macKey, ct) + msg + Hmac(p, macKey, msg) + Hmac(p, macKey, ct + metadata + msg) + iv + tag;
      Protect.Blob(p, macKey, version, ct, field, msg, iv, tag)
        == (metadata + Hmac(p, macKey, metadata)) + (Flatten(FrameUnitSeq(frames)) + trailer)
  {
    FlattenFrameUnits(Protect.Frames(p, macKey, ct, version));
  }

  /** A blob whose message-size field is the number of message bytes is cut
      into exactly its nine kinds of parts, and nothing is left over. */
  lemma WholeBlobPlan(p: Primitives, macKey: Bytes, version: u16, ct: Bytes, msg: Bytes, iv: Block, tag: Block)
    requires |ct| < 0x1_0000 && |msg| < 0x1_0000
    ensures var blob := Protect.Blob(p, macKey, version, ct, |msg|, msg, iv, tag);
      var units := BlobUnits(p, macKey, version, ct, msg, iv, tag);
      |blob| >= 6 && Update.UnitPlan(blob) == Update.Split(units, Update.Done, [])
      && Flatten(units) == blob
      && |units| == CeilDiv(|ct|, Protect.PageSize) + 5
  {
    var blob := Protect.Blob(p, macKey, version, ct, |msg|, msg, iv, tag);
    var metadata := Protect.Pack3(version, |ct|, |msg|);
    BlobSplit(p, macKey, version, ct, |msg|, msg, iv, tag);
    TrailerWhole(Hmac(p, macKey, ct), msg, Hmac(p, macKey, msg), Hmac(p, macKey, ct + metadata + msg), iv, tag);
    var units := BlobUnits(p, macKey, version, ct, msg, iv, tag);
    assert Update.UnitPlan(blob) == Update.Split(units, Update.Done, []);
    Update.PlanCovers(blob);
    assert Flatten(units) + [] == blob;
    FramesInOrder(p, macKey, ct, version);
  }

  /** Replies the device gives when it accepts everything: `'U'`, then one
      zero byte per unit. */
  function Accepting(units: nat, more: Bytes): Bytes
  {
    [Update.Sentinel] + Repeat(units, Update.RespOk) + more
  }

  /** With the device answering `'U'` first, the sender goes on to send
      the plan against the answers that follow. */
  lemma AcceptedDelivery(blob: Bytes, n: nat, more: Bytes)
    requires |blob| >= 6
    ensures var plan := Update.UnitPlan(blob);
      Update.Delivery(blob, Accepting(n, more))
        == Update.Finish([[Update.Sentinel]], plan.units, plan.local, Repeat(n, Update.RespOk) + more)
  {
    var replies := Accepting(n, more);
    assert replies[0] == Update.Sentinel;
    assert replies[1..] == Repeat(n, Update.RespOk) + more;
    assert Update.Handshake(replies) == (Update.Done, replies[1..]);
  }

  /** Every planned unit acknowledged: nothing is refused and the answers
      after them are left over. */
  lemma AllAcknowledged(units: seq<Bytes>, local: Update.Outcome, more: Bytes)
    ensures Update.Finish([[Update.Sentinel]], units, local, Repeat(|units|, Update.RespOk) + more)
         == Update.Finish([[Update.Sentinel]] + units, [], local, more)
  {
    var acks := Repeat(|units|, Update.RespOk) + more;
    assert acks[..|units|] == Repeat(|units|, Update.RespOk);
    assert acks[|units|..] == more;
    Update.FinishAllZero([[Update.Sentinel]], units, local, acks);
  }

  /** A transfer whose plan runs to the end and whose every unit is
      acknowledged: the line carries `'U'`, the units and the terminator. */
  lemma DeliveredAll(blob: Bytes, more: Bytes)
    requires |blob| >= 6 && Update.UnitPlan(blob).local == Update.Done
    ensures var units := Update.UnitPlan(blob).units;
      Update.Delivery(blob, Accepting(|units|, more))
        == Update.Session([[Update.Sentinel]] + units + [Update.Terminator], Update.Done, more)
  {
    var plan := Update.UnitPlan(blob);
    AcceptedDelivery(blob, |plan.units|, more);
    AllAcknowledged(plan.units, plan.local, more);
  }

  lemma LineBytes(units: seq<Bytes>)
    ensures Flatten([[Update.Sentinel]] + units + [Update.Terminator])
         == [Update.Sentinel] + Flatten(units) + Update.Terminator
  {
    FlattenAppend([[Update.Sentinel]] + units, [Update.Terminator]);
    FlattenAppend([[Update.Sentinel]], units);
    FlattenOne([Update.Sentinel]);
    FlattenOne(Update.Terminator);
  }

  /** The sender puts on the line `'U'`, the blob and `00 00`, nothing more,
      and reports success. */
  lemma WholeBlobDelivered(p: Primitives, macKey: Bytes, version: u16, ct: Bytes, msg: Bytes, iv: Block, tag: Block, more: Bytes)
    requires |ct| < 0x1_0000 && |msg| < 0x1_0000
    ensures var blob := Protect.Blob(p, macKey, version, ct, |msg|, msg, iv, tag);
      var s := Update.Delivery(blob, Accepting(CeilDiv(|ct|, Protect.PageSize) + 5, more));
      s.outcome == Update.Done && s.replies == more
      && |s.writes| == CeilDiv(|ct|, Protect.PageSize) + 7
      && Flatten(s.writes) == [Update.Sentinel] + blob + Update.Terminator
  {
    var blob := Protect.Blob(p, macKey, version, ct, |msg|, msg, iv, tag);
    WholeBlobPlan(p, macKey, version, ct, msg, iv, tag);
    DeliveredAll(blob, more);
    LineBytes(Update.UnitPlan(blob).units);
  }

  /** A blob whose message-size field falls short of the message bytes it
      carries: the plan still runs to the end, but the units stop
      `|msg| - field` bytes before the end of the blob. */
  lemma ShortFieldPlan(p: Primitives, macKey: Bytes, version: u16, ct: Bytes, field: u16, msg: Bytes, iv: Block, tag: Block)
    requires |ct| < 0x1_0000 && field <= |msg|
    ensures var blob := Protect.Blob(p, macKey, version, ct, field, msg, iv, tag);
      var plan := Update.UnitPlan(blob);
      |blob| >= 6 && plan.local == Update.Done
      && |plan.units| == CeilDiv(|ct|, Protect.PageSize) + 5
      && |plan.rest| == |msg| - field
      && Flatten(plan.units) == blob[..|blob| - (|msg| - field)]
  {
    var blob := Protect.Blob(p, macKey, version, ct, field, msg, iv, tag);
    var metadata := Protect.Pack3(version, |ct|, field);
    BlobSplit(p, macKey, version, ct, field, msg, iv, tag);
    TrailerShort(Hmac(p, macKey, ct), msg, Hmac(p, macKey, msg), Hmac(p, macKey, ct + metadata + msg), iv, tag, field);
    FramesInOrder(p, macKey, ct, version);
    Update.PlanCovers(blob);
    var plan := Update.UnitPlan(blob);
    assert Flatten(plan.units) == blob[..|blob| - |plan.rest|];
  }

  /** A bundler result that is the blob of a message whose size field is
      its length travels whole. */
  lemma ResultDelivered(r: Result<Bytes, Protect.BundleError>, n: nat, more: Bytes,
                        p: Primitives, macKey: Bytes, version: u16, ct: Bytes, msg: Bytes, iv: Block, tag: Block)
    requires |ct| < 0x1_0000 && |msg| < 0x1_0000 && n == CeilDiv(|ct|, Protect.PageSize) + 5
    requires r == Success(Protect.Blob(p, macKey, version, ct, |msg|, msg, iv, tag))
    ensures var s := Update.Delivery(r.value, Accepting(n, more));
      r.Success? && s.outcome == Update.Done
      && Flatten(s.writes) == [Update.Sentinel] + r.value + Update.Terminator
  {
    WholeBlobDelivered(p, macKey, version, ct, msg, iv, tag, more);
  }

  /** A bundler result whose size field falls `lost` bytes short of its
      message: every unit is acknowledged, the last `lost` bytes stay behind. */
  lemma ShortResultDelivered(r: Result<Bytes, Protect.BundleError>, n: nat, more: Bytes, lost: nat,
                             p: Primitives, macKey: Bytes, version: u16, ct: Bytes, field: u16, msg: Bytes, iv: Block, tag: Block)
    requires |ct| < 0x1_0000 && field <= |msg| && lost == |msg| - field
    requires n == CeilDiv(|ct|, Protect.PageSize) + 5
    requires r == Success(Protect.Blob(p, macKey, version, ct, field, msg, iv, tag))
    ensures var s := Update.Delivery(r.value, Accepting(n, more));
      r.Success? && lost <= |r.value| && s.outcome == Update.Done
      && Flatten(s.writes) == [Update.Sentinel] + r.value[..|r.value| - lost] + Update.Terminator
  {
    var blob := r.value;
    ShortFieldPlan(p, macKey, version, ct, field, msg, iv, tag);
    DeliveredAll(blob, more);
    LineBytes(Update.UnitPlan(blob).units);
  }

  lemma BundleUnfold(p: Primitives, aesKey: Bytes, macKey: Bytes, iv: Block,
                     firmware: Bytes, version: int, message: string)
    requires Protect.Packable(firmware, version, message)
    ensures var sealed := GcmEncrypt(p, aesKey, iv, firmware);
      Protect.Bundle(p, aesKey, macKey, iv, firmware, version, message)
      == Success(Protect.Blob(p, macKey, version, sealed.0, |message|, Utf8.Encode(message), iv, sealed.1))
  {
  }

  /** As written: an ASCII message travels whole. */
  lemma AsciiBundleDelivered(p: Primitives, aesKey: Bytes, macKey: Bytes, iv: Block,
                             firmware: Bytes, version: int, message: string, more: Bytes)
    requires Protect.Packable(firmware, version, message) && Utf8.IsAscii(message)
    ensures var r := Protect.Bundle(p, aesKey, macKey, iv, firmware, version, message);
      var s := Update.Delivery(r.value, Accepting(CeilDiv(|firmware|, Protect.PageSize) + 5, more));
      r.Success? && s.outcome == Update.Done
      && Flatten(s.writes) == [Update.Sentinel] + r.value + Update.Terminator
  {
    var msg := Utf8.Encode(message);
    Utf8.EncodedLength(message);
    var sealed := GcmEncrypt(p, aesKey, iv, firmware);
    var r := Protect.Bundle(p, aesKey, macKey, iv, firmware, version, message);
    assert r == Success(Protect.Blob(p, macKey, version, sealed.0, |msg|, msg, iv, sealed.1));
    ResultDelivered(r, CeilDiv(|firmware|, Protect.PageSize) + 5, more, p, macKey, version, sealed.0, msg, iv, sealed.1);
  }

  /** As written: with a message that is not ASCII the metadata counts
      characters, the message carries more bytes, and the sender cuts the
      trailer short.  Every unit is acknowledged and the sender reports
      success, yet the last `|encoded| - |message|` bytes of the blob (its
      tail: the end of IV and tag and, for larger undercounts, the MACs
      before them) never reach the line. */
  lemma NonAsciiBundleTruncated(p: Primitives, aesKey: Bytes, macKey: Bytes, iv: Block,
                                firmware: Bytes, version: int, message: string, more: Bytes)
    requires Protect.Packable(firmware, version, message) && !Utf8.IsAscii(message)
    ensures var r := Protect.Bundle(p, aesKey, macKey, iv, firmware, version, message);
      var lost := |Utf8.Encode(message)| - |message|;
      var s := Update.Delivery(r.value, Accepting(CeilDiv(|firmware|, Protect.PageSize) + 5, more));
      r.Success? && 0 < lost <= |r.value|
      && s.outcome == Update.Done
      && Flatten(s.writes) == [Update.Sentinel] + r.value[..|r.value| - lost] + Update.Terminator
  {
    var msg := Utf8.Encode(message);
    Utf8.EncodedLength(message);
    var sealed := GcmEncrypt(p, aesKey, iv, firmware);
    var r := Protect.Bundle(p, aesKey, macKey, iv, firmware, version, message);
    BundleUnfold(p, aesKey, macKey, iv, firmware, version, message);
    ShortResultDelivered(r, CeilDiv(|firmware|, Protect.PageSize) + 5, more, |msg| - |message|,
                         p, macKey, version, sealed.0, |message|, msg, iv, sealed.1);
  }

  /** One accented letter is enough: "é" is one character and two bytes. */
  lemma AccentedMessageExample()
    ensures var message := "é";
      !Utf8.IsAscii(message) && |message| == 1 && |Utf8.Encode(message)| == 2
  {
    var message := "é";
    assert message[0] as int == 0xE9;
    assert Utf8.Encode(message[1..]) == [];
    assert |Utf8.EncodeChar(message[0])| == 2;
  }

  /** As intended: with the field counting bytes, every message travels whole. */
  lemma FixedBundleDelivered(p: Primitives, aesKey: Bytes, macKey: Bytes, iv: Block,
                             firmware: Bytes, version: int, message: string, more: Bytes)
    requires Protect.Packable(firmware, version, Utf8.Encode(message))
    ensures var r := Protect.BundleFixed(p, aesKey, macKey, iv, firmware, version, message);
      var s := Update.Delivery(r.value, Accepting(CeilDiv(|firmware|, Protect.PageSize) + 5, more));
      r.Success? && s.outcome == Update.Done
      && Flatten(s.writes) == [Update.Sentinel] + r.value + Update.Terminator
  {
    var msg := Utf8.Encode(message);
    var sealed := GcmEncrypt(p, aesKey, iv, firmware);
    var r := Protect.BundleFixed(p, aesKey, macKey, iv, firmware, version, message);
    assert r == Success(Protect.Blob(p, macKey, version, sealed.0, |msg|, msg, iv, sealed.1));
    ResultDelivered(r, CeilDiv(|firmware|, Protect.PageSize) + 5, more, p, macKey, version, sealed.0, msg, iv, sealed.1);
  }

  // ---------------------------------------------------------------------
  // Frames out of order.

  lemma RemainingAborted(rest: Bytes, n: nat, messageSize: u16)
    requires Update.FrameUnits(rest, 0, n).local.Aborted?
    ensures Update.Remaining(rest, 0, n, messageSize) == Update.FrameUnits(rest, 0, n)
  {
  }

  /** A transfer whose plan stops at a fault of the sender's own: once
      every planned unit is acknowledged the sender raises that fault. */
  lemma DeliveredUntilFault(blob: Bytes, units: seq<Bytes>, fault: Update.Fault, left: Bytes, more: Bytes)
    requires |blob| >= 6 && Update.UnitPlan(blob) == Update.Split(units, Update.Aborted(fault), left)
    ensures Update.Delivery(blob, Accepting(|units|, more))
         == Update.Session([[Update.Sentinel]] + units, Update.Aborted(fault), more)
  {
    AcceptedDelivery(blob, |units|, more);
    AllAcknowledged(units, Update.Aborted(fault), more);
  }

  /** The plan of a blob whose frame `|us|` carries the wrong index: the
      header and the frames before it, then the order error. */
  lemma OrderErrorPlan(head: Bytes, us: seq<Bytes>, bad: Bytes)
    requires |head| == Update.FwMetadataSize + Update.HmacSize
    requires FrameUnitsFrom(us, 0) && |us| < CeilDiv(U16At(head, 2), Update.PageSize)
    requires |bad| >= 4 && U16At(bad, 0) != |us|
    ensures Update.UnitPlan(head + (Flatten(us) + bad))
         == Update.Split([head] + us, Update.Aborted(Update.OrderError(|us|, U16At(bad, 0))), bad)
  {
    var rest := Flatten(us) + bad;
    var n := CeilDiv(U16At(head, 2), Update.PageSize);
    FrameUnitsStopAt(us, bad, 0, n);
    RemainingAborted(rest, n, U16At(head, 4));
    PlanOfHead(head, rest);
  }

  /** A blob whose frame `k` carries the wrong index (frames `0 .. k - 1`
      are in order, `bad` is what follows them): after the header and those
      frames are acknowledged the sender stops with an order error, and no
      byte of `bad` reaches the line. */
  lemma OrderErrorBeforeFrame(head: Bytes, us: seq<Bytes>, bad: Bytes, more: Bytes)
    requires |head| == Update.FwMetadataSize + Update.HmacSize
    requires FrameUnitsFrom(us, 0) && |us| < CeilDiv(U16At(head, 2), Update.PageSize)
    requires |bad| >= 4 && U16At(bad, 0) != |us|
    ensures var s := Update.Delivery(head + (Flatten(us) + bad), Accepting(|us| + 1, more));
      s.outcome == Update.Aborted(Update.OrderError(|us|, U16At(bad, 0)))
      && s.writes == [[Update.Sentinel], head] + us
      && s.replies == more
  {
    OrderErrorPlan(head, us, bad);
    DeliveredUntilFault(head + (Flatten(us) + bad), [head] + us, Update.OrderError(|us|, U16At(bad, 0)), bad, more);
    assert |[head] + us| == |us| + 1;
    assert [[Update.Sentinel]] + ([head] + us) == [[Update.Sentinel], head] + us;
  }
}
