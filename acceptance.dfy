/** What the bootloader's acceptance logic guarantees, stated over the
    reception functions of module Bootloader: which frames and which
    metadata get through, that the version stored in flash never goes back,
    where an accepted update ends up in flash, and that every store into
    the global buffer stays inside it. */
module Acceptance {
  import opened Bytes
  import opened Crypto
  import opened Wrappers
  import opened Bootloader

  // ---------------------------------------------------------------------
  // Frames

  /** A frame the device accepts, stated as one conjunction over the bytes
      at the head of the line: a header with its MAC, the expected index
      no greater than the last frame number, at most 1024 bytes that still
      fit in the announced size, the update's version (never 1), and the
      payload with its MAC over payload and header. */
  ghost predicate WellFormedFrame(k: Secrets, d: Metadata, st: FrameState, line: Bytes)
  {
    && |line| >= FrMetadataSize + HmacSize
    && line[FrMetadataSize..FrMetadataSize + HmacSize] == Hmac(k.prim, k.hmacKey, line[..FrMetadataSize])
    && var h := DecodeFrameHeader(line[..FrMetadataSize]);
    && h.index == st.indexCheck && h.index <= FrameNumber(d.size)
    && h.length <= FlashPageSize && st.received + h.length <= d.size
    && h.version == d.version && h.version != 1
    && |line| >= FrMetadataSize + HmacSize + h.length + HmacSize
    && var body := line[FrMetadataSize + HmacSize..];
    && body[h.length..h.length + HmacSize] == Hmac(k.prim, k.hmacKey, body[..h.length] + line[..FrMetadataSize])
  }

  /** The frame step accepts exactly the well-formed frames, and then
      stores the payload and its header at `1024 * index`, counts the
      payload, and goes on after the payload's MAC. */
  lemma FrameStepAccepts(k: Secrets, d: Metadata, st: FrameState, line: Bytes)
    requires d.size <= FwMaxSize && st.received <= d.size && |st.data| == DataSize
    ensures FrameStep(k, d, st, line).FrameAccepted? <==> WellFormedFrame(k, d, st, line)
    ensures WellFormedFrame(k, d, st, line) ==>
      var header := line[..FrMetadataSize];
      var length := DecodeFrameHeader(header).length;
      var body := line[FrMetadataSize + HmacSize..];
      FrameStep(k, d, st, line) == FrameAccepted(
        FrameState(st.indexCheck + 1, st.received + length,
                   Splice(st.data, FlashPageSize * st.indexCheck, body[..length] + header)),
        st.indexCheck, body[length + HmacSize..])
  {
    if |line| >= FrMetadataSize + HmacSize {
      var header := line[..FrMetadataSize];
      var h := DecodeFrameHeader(header);
      var body := line[FrMetadataSize + HmacSize..];
      if VerifyMac(k, header, line[FrMetadataSize..]).None? {
        assert line[FrMetadataSize..][..HmacSize] == line[FrMetadataSize..FrMetadataSize + HmacSize];
        assert FrameStep(k, d, st, line) == FrameBody(k, d, st, header, body);
        if h.index == st.indexCheck && h.index <= FrameNumber(d.size) && h.length <= FlashPageSize
           && h.version == d.version && h.version != 1
        {
          assert FrameBody(k, d, st, header, body) == FramePayload(k, d, st, header, h.length, body);
          if st.received + h.length <= d.size && |body| >= h.length + HmacSize {
            assert body[h.length..][..HmacSize] == body[h.length..h.length + HmacSize];
          }
        }
      } else {
        assert line[FrMetadataSize..][..HmacSize] == line[FrMetadataSize..FrMetadataSize + HmacSize];
      }
    }
  }

  // ---------------------------------------------------------------------
  // Metadata

  /** The metadata block is acknowledged exactly when its MAC is right, the
      version is 0 or not below the stored one, the firmware fits in
      0x7800 bytes and the release message in 0x400. */
  lemma UpdateAdmitted(k: Secrets, stored: Bytes, line: Bytes, data: Bytes)
    requires |stored| == 2 && |data| == DataSize
    ensures Receive(k, stored, line, data).acks > 0 <==>
      && |line| >= FwMetadataSize + HmacSize
      && line[FwMetadataSize..FwMetadataSize + HmacSize] == Hmac(k.prim, k.hmacKey, line[..FwMetadataSize])
      && var d := DecodeMetadata(line[..FwMetadataSize]);
      && (d.version == 0 || d.version >= DecodeU16(stored[0], stored[1]))
      && d.size <= FwMaxSize && d.msgSize <= ReleaseMaxSize
  {
    if |line| >= FwMetadataSize + HmacSize {
      assert line[FwMetadataSize..][..HmacSize] == line[FwMetadataSize..FwMetadataSize + HmacSize];
    }
  }

  /** An accepted update was acknowledged once for the metadata, once for
      each of the ceil(size / 1024) frames (one frame for an empty
      firmware), and once each for the firmware MAC, the release message,
      the MAC over the bundle and the GCM tag. */
  lemma AcceptedAcks(k: Secrets, stored: Bytes, line: Bytes, data: Bytes)
    requires |stored| == 2 && |data| == DataSize
    requires Receive(k, stored, line, data).Accepted?
    ensures |line| >= FwMetadataSize
    ensures Receive(k, stored, line, data).acks == FrameNumber(DecodeMetadata(line[..FwMetadataSize]).size) + 6
  {
    var metadata := line[..FwMetadataSize];
    var d := DecodeMetadata(metadata);
    var after := AfterMetadata(k, stored, metadata, d, line[FwMetadataSize + HmacSize..], data);
    assert Receive(k, stored, line, data) == Later(1, after);
    var frames := FrameLoop(k, d, FrameState(0, 0, data), line[FwMetadataSize + HmacSize..]);
    assert frames.FramesDone?;
    assert after == Later(frames.last.indexCheck,
      Trailer(k, stored, metadata, d, frames.last.received, frames.last.data, frames.rest));
  }

  // ---------------------------------------------------------------------
  // Flash

  /** The firmware pages hold the firmware from `at` on. */
  lemma {:induction false} FlashPagesHold(f: Bytes, fw: Bytes, at: nat)
    requires at + |fw| + FlashPageSize <= |f|
    ensures FlashPages(f, fw, at)[at..at + |fw|] == fw
    decreases |fw|
  {
    if fw == [] {
    } else if |fw| <= FlashPageSize {
      SpliceParts(f, at, PageImage(fw));
    } else {
      var page := PageImage(fw[..FlashPageSize]);
      var f' := Splice(f, at, page);
      var r := FlashPages(f', fw[FlashPageSize..], at + FlashPageSize);
      assert r == FlashPages(f, fw, at);
      SpliceParts(f, at, page);
      FlashPagesHold(f', fw[FlashPageSize..], at + FlashPageSize);
      FlashPagesBelow(f', fw[FlashPageSize..], at + FlashPageSize);
      assert r[at..at + FlashPageSize] == r[..at + FlashPageSize][at..] == f'[..at + FlashPageSize][at..];
      assert page == fw[..FlashPageSize];
      assert r[at..at + |fw|] == r[at..at + FlashPageSize] + r[at + FlashPageSize..at + |fw|];
      assert fw == fw[..FlashPageSize] + fw[FlashPageSize..];
    }
  }

  /** Where an accepted update lands: flash below the release-message page
      is untouched, the release-message page holds the message and then
      0xFF, the metadata page holds the 6 metadata bytes and then 0xFF, and
      the firmware starts at FW_BASE. */
  lemma InstalledLayout(f: Bytes, i: Install)
    requires |f| == FlashSize && |i.firmware| <= FwMaxSize
    requires |i.metadata| == FwMetadataSize && |i.message| <= ReleaseMaxSize
    ensures var r := Installed(f, i);
      && r[..ReleaseBase] == f[..ReleaseBase]
      && r[ReleaseBase..MetadataBase] == PageImage(i.message)
      && r[MetadataBase..FwBase] == PageImage(i.metadata)
      && r[FwBase..FwBase + |i.firmware|] == i.firmware
  {
    var f1 := FlashPages(f, i.firmware, FwBase);
    var f2 := Splice(f1, MetadataBase, PageImage(i.metadata));
    var r := Splice(f2, ReleaseBase, PageImage(i.message));
    FlashPagesBelow(f, i.firmware, FwBase);
    FlashPagesHold(f, i.firmware, FwBase);
    SpliceParts(f1, MetadataBase, PageImage(i.metadata));
    SpliceParts(f2, ReleaseBase, PageImage(i.message));
    assert r[..ReleaseBase] == f2[..ReleaseBase] == f2[..MetadataBase][..ReleaseBase];
    assert f1[..MetadataBase][..ReleaseBase] == f1[..FwBase][..ReleaseBase];
    assert f[..FwBase][..ReleaseBase] == f[..ReleaseBase];
    assert r[MetadataBase..FwBase] == r[MetadataBase..][..FlashPageSize];
    assert f2[MetadataBase..FwBase] == f2[MetadataBase..][..FlashPageSize];
    assert r[FwBase..FwBase + |i.firmware|] == r[MetadataBase..][FlashPageSize..][..|i.firmware|];
    assert f2[FwBase..FwBase + |i.firmware|] == f2[FwBase..][..|i.firmware|];
  }

  /** The version stored in flash never goes back: an accepted update
      stores its own version, or keeps the stored one when it is the
      debug version 0. */
  lemma NoRollback(k: Secrets, f: Bytes, line: Bytes, data: Bytes)
    requires |f| == FlashSize && |data| == DataSize
    requires Receive(k, f[MetadataBase..MetadataBase + 2], line, data).Accepted?
    ensures |line| >= FwMetadataSize
    ensures var r := Receive(k, f[MetadataBase..MetadataBase + 2], line, data);
      var version := DecodeMetadata(line[..FwMetadataSize]).version;
      && StoredVersion(Installed(f, r.install)) == (if version == 0 then StoredVersion(f) else version)
      && StoredVersion(Installed(f, r.install)) >= StoredVersion(f)
  {
    var stored := f[MetadataBase..MetadataBase + 2];
    AcceptedInstall(k, stored, line, data);
    VersionKept(f, Receive(k, stored, line, data).install, line[..FwMetadataSize]);
  }

  /** Installing metadata that passed the version check, with the stored
      version kept for version 0, never lowers the stored version. */
  lemma VersionKept(f: Bytes, i: Install, metadata: Bytes)
    requires |f| == FlashSize && Fits(i) && |metadata| == FwMetadataSize
    requires var stored := f[MetadataBase..MetadataBase + 2];
      var version := DecodeMetadata(metadata).version;
      && i.metadata == KeepVersion(metadata, stored, version)
      && (version == 0 || version >= DecodeU16(stored[0], stored[1]))
    ensures var version := DecodeMetadata(metadata).version;
      && StoredVersion(Installed(f, i)) == (if version == 0 then StoredVersion(f) else version)
      && StoredVersion(Installed(f, i)) >= StoredVersion(f)
  {
    InstalledVersion(f, i);
    var m := i.metadata;
    if DecodeMetadata(metadata).version == 0 {
      assert m[0] == f[MetadataBase] && m[1] == f[MetadataBase + 1];
    } else {
      assert m == metadata;
    }
  }

  /** An accepted update installs its own metadata, with the stored
      version kept for version 0, after a version check that let it through. */
  lemma AcceptedInstall(k: Secrets, stored: Bytes, line: Bytes, data: Bytes)
    requires |stored| == 2 && |data| == DataSize
    requires Receive(k, stored, line, data).Accepted?
    ensures |line| >= FwMetadataSize
    ensures var r := Receive(k, stored, line, data);
      var d := DecodeMetadata(line[..FwMetadataSize]);
      && Fits(r.install)
      && r.install.metadata == KeepVersion(line[..FwMetadataSize], stored, d.version)
      && (d.version == 0 || d.version >= DecodeU16(stored[0], stored[1]))
  {
    UpdateAdmitted(k, stored, line, data);
  }

  /** The version the flash stores after an install is the one in the
      metadata it installs. */
  lemma InstalledVersion(f: Bytes, i: Install)
    requires |f| == FlashSize && Fits(i)
    ensures StoredVersion(Installed(f, i)) == DecodeU16(i.metadata[0], i.metadata[1])
  {
    InstalledLayout(f, i);
    var g := Installed(f, i);
    assert g[MetadataBase..FwBase][..2] == i.metadata[..2];
    assert g[MetadataBase] == i.metadata[0] && g[MetadataBase + 1] == i.metadata[1];
  }

  // ---------------------------------------------------------------------
  // The global buffer

  /** Every store into `data` stays inside DATA_SIZE: a frame's payload and
      the header after it at `1024 * index` for an index the frame checks
      let through, and the metadata and message appended after the
      firmware. */
  lemma StoresInBounds(size: nat, index: nat, length: nat, msgSize: nat)
    requires size <= FwMaxSize && index <= FrameNumber(size) && length <= FlashPageSize
    requires msgSize <= ReleaseMaxSize
    ensures FlashPageSize * index + length + FrMetadataSize <= DataSize
    ensures size + FwMetadataSize + msgSize <= DataSize
  {
    assert index < FwMaxSize / FlashPageSize;
    assert FlashPageSize * index <= FlashPageSize * (FwMaxSize / FlashPageSize - 1);
  }

  /** With an empty firmware and `frame_number` wrapped to 0xFFFF, the
      header checks of lines 373-388 let a zero-length frame with index 32
      and the update's version through, which they refuse when
      `frame_number` is 0; its header copy (lines 407-409) then starts at
      32768 and ends beyond DATA_SIZE. */
  lemma EmptyFirmwareHeaderOverflow(d: Metadata)
    requires d.size == 0 && d.version != 1
    ensures var f := DecodeFrameHeader(EncodeMetadata(32, 0, d.version));
      && HeaderPasses(d, 32, f, WrappedFrameNumber(d.size))
      && !HeaderPasses(d, 32, f, FrameNumber(d.size))
      && FlashPageSize * f.index + f.length == 32768
      && FlashPageSize * f.index + f.length + FrMetadataSize > DataSize
  {
    var v: int := d.version;
    assert v % 0x1_0000 == v;
    var m := EncodeMetadata(32, 0, v);
    var f := DecodeFrameHeader(m);
    assert f.index == DecodeMetadata(m).version == 32;
    assert f.length == DecodeMetadata(m).size == 0;
    assert f.version == DecodeMetadata(m).msgSize == d.version;
  }

  /** A release message announced `field` bytes long but shipped longer:
      the device reads only the first `field` bytes and takes the next 32,
      which start with the rest of the message, as their MAC. */
  lemma UndercountedRelease(k: Secrets, field: nat, msg: Bytes, rest: Bytes)
    requires field < |msg| && field <= ReleaseMaxSize
    ensures var line := msg + Hmac(k.prim, k.hmacKey, msg) + rest;
      && field + HmacSize <= |line| && line[field] == msg[field]
      && (ReadRelease(k, field, line).Success? <==>
          line[field..field + HmacSize] == Hmac(k.prim, k.hmacKey, msg[..field]))
      && (ReadRelease(k, field, line).Failure? ==> ReadRelease(k, field, line).error == Reset)
  {
    var line := msg + Hmac(k.prim, k.hmacKey, msg) + rest;
    assert line[..field] == msg[..field];
  }

  // ---------------------------------------------------------------------
  // The initial firmware

  lemma {:induction false} InitialPagesBelow(f: Bytes, image: Bytes, at: nat)
    requires at + |image| + FlashPageSize <= |f|
    ensures InitialPages(f, image, at)[..at] == f[..at]
    decreases |image|
  {
    if |image| < FlashPageSize {
      SpliceParts(f, at, PageImage(image));
    } else {
      var f' := Splice(f, at, PageImage(image[..FlashPageSize]));
      SpliceParts(f, at, PageImage(image[..FlashPageSize]));
      InitialPagesBelow(f', image[FlashPageSize..], at + FlashPageSize);
      assert InitialPages(f, image, at)[..at + FlashPageSize][..at] == InitialPages(f, image, at)[..at];
      assert f'[..at + FlashPageSize][..at] == f'[..at];
    }
  }

  lemma {:induction false} InitialPagesHold(f: Bytes, image: Bytes, at: nat)
    requires at + |image| + FlashPageSize <= |f|
    ensures InitialPages(f, image, at)[at..at + |image|] == image
    decreases |image|
  {
    if |image| < FlashPageSize {
      SpliceParts(f, at, PageImage(image));
      assert PageImage(image)[..|image|] == image;
    } else {
      var page := PageImage(image[..FlashPageSize]);
      var f' := Splice(f, at, page);
      var r := InitialPages(f', image[FlashPageSize..], at + FlashPageSize);
      assert r == InitialPages(f, image, at);
      SpliceParts(f, at, page);
      InitialPagesHold(f', image[FlashPageSize..], at + FlashPageSize);
      InitialPagesBelow(f', image[FlashPageSize..], at + FlashPageSize);
      assert r[at..at + FlashPageSize] == r[..at + FlashPageSize][at..] == f'[..at + FlashPageSize][at..];
      assert page == image[..FlashPageSize];
      assert r[at..at + |image|] == r[at..at + FlashPageSize] + r[at + FlashPageSize..at + |image|];
      assert image == image[..FlashPageSize] + image[FlashPageSize..];
    }
  }

  /** The metadata page and then the release page, each erased and written. */
  lemma InfoPages(f: Bytes, metadata: Bytes, message: Bytes)
    requires |f| == FlashSize && |metadata| <= FlashPageSize && |message| <= FlashPageSize
    ensures var r := Splice(Splice(f, MetadataBase, PageImage(metadata)), ReleaseBase, PageImage(message));
      && r[..ReleaseBase] == f[..ReleaseBase]
      && r[ReleaseBase..MetadataBase] == PageImage(message)
      && r[MetadataBase..FwBase] == PageImage(metadata)
  {
    var f1 := Splice(f, MetadataBase, PageImage(metadata));
    var r := Splice(f1, ReleaseBase, PageImage(message));
    SpliceParts(f, MetadataBase, PageImage(metadata));
    SpliceParts(f1, ReleaseBase, PageImage(message));
    assert r[..ReleaseBase] == f1[..ReleaseBase] == f1[..MetadataBase][..ReleaseBase];
    assert r[MetadataBase..FwBase] == r[MetadataBase..][..FlashPageSize];
    assert f1[MetadataBase..FwBase] == f1[MetadataBase..][..FlashPageSize];
  }

  /** Metadata page, release page and image pages, written in that order. */
  lemma BootPagesLayout(f: Bytes, metadata: Bytes, message: Bytes, image: Bytes)
    requires |f| == FlashSize && FwBase + |image| + FlashPageSize <= FlashSize
    requires |metadata| <= FlashPageSize && |message| <= FlashPageSize
    ensures var r := InitialPages(Splice(Splice(f, MetadataBase, PageImage(metadata)), ReleaseBase, PageImage(message)), image, FwBase);
      && r[MetadataBase..MetadataBase + |metadata|] == metadata
      && r[ReleaseBase..ReleaseBase + |message|] == message
      && r[FwBase..FwBase + |image|] == image
      && r[..ReleaseBase] == f[..ReleaseBase]
  {
    var f2 := Splice(Splice(f, MetadataBase, PageImage(metadata)), ReleaseBase, PageImage(message));
    var r := InitialPages(f2, image, FwBase);
    InfoPages(f, metadata, message);
    InitialPagesBelow(f2, image, FwBase);
    InitialPagesHold(f2, image, FwBase);
    LowPages(f, f2, r, metadata, message);
  }

  /** Reading the metadata and the message back out of the low pages. */
  lemma LowPages(f: Bytes, f2: Bytes, r: Bytes, metadata: Bytes, message: Bytes)
    requires |f| == |f2| == |r| == FlashSize && |metadata| <= FlashPageSize && |message| <= FlashPageSize
    requires r[..FwBase] == f2[..FwBase] && f2[..ReleaseBase] == f[..ReleaseBase]
    requires f2[ReleaseBase..MetadataBase] == PageImage(message)
    requires f2[MetadataBase..FwBase] == PageImage(metadata)
    ensures r[MetadataBase..MetadataBase + |metadata|] == metadata
    ensures r[ReleaseBase..ReleaseBase + |message|] == message
    ensures r[..ReleaseBase] == f[..ReleaseBase]
  {
    forall i | MetadataBase <= i < MetadataBase + |metadata|
      ensures r[i] == metadata[i - MetadataBase]
    {
      assert r[i] == r[..FwBase][i] == f2[..FwBase][i] == f2[MetadataBase..FwBase][i - MetadataBase];
    }
    forall i | ReleaseBase <= i < ReleaseBase + |message|
      ensures r[i] == message[i - ReleaseBase]
    {
      assert r[i] == r[..FwBase][i] == f2[..FwBase][i] == f2[ReleaseBase..MetadataBase][i - ReleaseBase];
    }
    forall i | 0 <= i < ReleaseBase
      ensures r[i] == f[i]
    {
      assert r[i] == r[..FwBase][i] == f2[..FwBase][i] == f2[..ReleaseBase][i];
    }
  }

  /** After `load_initial_firmware` the metadata page decodes to version 2,
      the image size cut to 16 bits and a 36-byte message, the release
      page holds the initial message, the image sits at FW_BASE, and the
      flash below the release page is untouched. */
  lemma InitialFlashLayout(f: Bytes, image: Bytes)
    requires |f| == FlashSize && FwBase + |image| + FlashPageSize <= FlashSize
    ensures var r := InitialFlash(f, image);
      && DecodeMetadata(r[MetadataBase..MetadataBase + FwMetadataSize]) == Metadata(2, |image| % 0x1_0000, 36)
      && r[ReleaseBase..ReleaseBase + |InitialMessageBytes|] == InitialMessageBytes
      && r[FwBase..FwBase + |image|] == image
      && r[..ReleaseBase] == f[..ReleaseBase]
  {
    var metadata := EncodeMetadata(InitialVersion, |image|, InitialMessageSize);
    BootPagesLayout(f, metadata, InitialMessageBytes, image);
  }
}
