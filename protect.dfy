/** The bundle builder of tools/fw_protect.py (`protect_firmware`): metadata,
    encrypted firmware cut into authenticated frames, the release message and
    the MACs over them, laid out back to back in one blob.  Reading the
    firmware and the keys from files and writing the blob out are left to
    the caller: the firmware, the keys and the random IV are parameters. */
module Protect {
  import opened Bytes
  import opened Crypto
  import Utf8
  import opened Wrappers

  const PageSize := 1024
  const MetadataSize := 6
  /** Bytes a frame adds around its payload: header, header MAC, payload MAC. */
  const FrameOverhead := 6 + 32 + 32

  /** `struct.pack` raises `struct.error` when a field does not fit an unsigned short. */
  datatype BundleError = PackOverflow

  /** `struct.pack('<HHH', a, b, c)`: both the bundle metadata (version,
      firmware size, message size) and each frame header (index, size,
      version) have this shape. */
  function Pack3(a: u16, b: u16, c: u16): (m: Bytes)
    ensures |m| == 6
    ensures U16At(m, 0) == a && U16At(m, 2) == b && U16At(m, 4) == c
  {
    LeU16(a) + LeU16(b) + LeU16(c)
  }

  lemma Pack3Injective(a: u16, b: u16, c: u16, a': u16, b': u16, c': u16)
    requires Pack3(a, b, c) == Pack3(a', b', c')
    ensures a == a' && b == b' && c == c'
  {
    var m := Pack3(a, b, c);
    assert U16At(m, 0) == a' && U16At(m, 2) == b' && U16At(m, 4) == c';
  }

  // ---------------------------------------------------------------------
  // Pages: the ciphertext cut into 1024-byte slices, the last one shorter.

  function Pages(ct: Bytes): (pages: seq<Bytes>)
    ensures forall k :: 0 <= k < |pages| ==> 0 < |pages[k]| <= PageSize
    decreases |ct|
  {
    if ct == [] then []
    else if |ct| <= PageSize then [ct]
    else [ct[..PageSize]] + Pages(ct[PageSize..])
  }

  /** End offset of page `k` of a ciphertext of length `n`. */
  function PageEnd(n: nat, k: nat): nat
  {
    if PageSize * k + PageSize < n then PageSize * k + PageSize else n
  }

  lemma {:induction false} PageCount(ct: Bytes)
    ensures |Pages(ct)| == CeilDiv(|ct|, PageSize)
    decreases |ct|
  {
    if |ct| > PageSize {
      PageCount(ct[PageSize..]);
    }
  }

  lemma {:induction false} PagesFlatten(ct: Bytes)
    ensures Flatten(Pages(ct)) == ct
    decreases |ct|
  {
    if ct == [] {
    } else if |ct| <= PageSize {
      FlattenOne(ct);
    } else {
      var rest := Pages(ct[PageSize..]);
      PagesFlatten(ct[PageSize..]);
      assert ([ct[..PageSize]] + rest)[1..] == rest;
      assert ct[..PageSize] + ct[PageSize..] == ct;
    }
  }

  /** Page `k` is the slice `ct[1024k : min(1024k + 1024, len(ct))]`. */
  lemma {:induction false} PageAt(ct: Bytes, k: nat)
    requires k < |Pages(ct)|
    ensures PageSize * k < |ct|
    ensures PageEnd(|ct|, k) <= |ct|
    ensures Pages(ct)[k] == ct[PageSize * k .. PageEnd(|ct|, k)]
    decreases |ct|
  {
    if |ct| <= PageSize {
      assert k == 0;
    } else if k > 0 {
      var rest := ct[PageSize..];
      assert Pages(ct)[k] == Pages(rest)[k - 1];
      PageAt(rest, k - 1);
      var m := PageSize * (k - 1);
      assert PageSize * k == m + PageSize;
      assert |rest| == |ct| - PageSize;
      assert PageEnd(|rest|, k - 1) == if m + PageSize < |rest| then m + PageSize else |rest|;
      assert PageEnd(|ct|, k) == if m + PageSize + PageSize < |ct| then m + PageSize + PageSize else |ct|;
      SliceOfRest(ct, PageSize, m, PageEnd(|rest|, k - 1));
    }
  }

  /** A slice of `s[d:]` is a slice of `s`, shifted by `d`. */
  lemma SliceOfRest(s: Bytes, d: nat, lo: nat, hi: nat)
    requires d <= |s| && lo <= hi <= |s| - d
    ensures s[d..][lo..hi] == s[d + lo .. d + hi]
  {
    var l, r := s[d..][lo..hi], s[d + lo .. d + hi];
    assert |l| == |r|;
    forall i | 0 <= i < |l| ensures l[i] == r[i] {
      assert l[i] == s[d + lo + i];
    }
  }

  /** Every page but the last holds 1024 bytes; the last holds what is left. */
  lemma PageSizes(ct: Bytes, k: nat)
    requires k < |Pages(ct)|
    ensures k < |Pages(ct)| - 1 ==> |Pages(ct)[k]| == PageSize
    ensures k == |Pages(ct)| - 1 ==> |Pages(ct)[k]| == |ct| - PageSize * (|Pages(ct)| - 1)
  {
    PageAt(ct, k);
    PageCount(ct);
    var n := |Pages(ct)|;
    if k < n - 1 {
      PageAt(ct, n - 1);
    } else {
      assert k == n - 1;
      assert PageSize * n >= |ct|;
    }
  }

  // ---------------------------------------------------------------------
  // Frames.

  datatype Frame = Frame(index: u16, size: u16, version: u16,
                         headerMac: Digest, payload: Bytes, payloadMac: Digest)

  /** One loop iteration of lines 98-119: header, the MAC of the header, and
      the MAC of payload followed by header. */
  function MakeFrame(p: Primitives, macKey: Bytes, index: u16, page: Bytes, version: u16): Frame
    requires |page| <= PageSize
  {
    var header := Pack3(index, |page|, version);
    Frame(index, |page|, version, Hmac(p, macKey, header), page, Hmac(p, macKey, page + header))
  }

  /** The bytes of one frame: `page_metadata + fw_metadata_hash + page + fw_data_hash`. */
  function FrameBytes(f: Frame): Bytes
  {
    Pack3(f.index, f.size, f.version) + f.headerMac + f.payload + f.payloadMac
  }

  function Wire(frames: seq<Frame>): Bytes
  {
    if frames == [] then [] else FrameBytes(frames[0]) + Wire(frames[1..])
  }

  lemma {:induction false} WireAppend(a: seq<Frame>, b: seq<Frame>)
    ensures Wire(a + b) == Wire(a) + Wire(b)
  {
    if a == [] {
      assert a + b == b;
    } else {
      assert (a + b)[1..] == a[1..] + b;
      WireAppend(a[1..], b);
    }
  }

  /** The frames of a ciphertext, frame `k` built from page `k` with index `k`. */
  function Frames(p: Primitives, macKey: Bytes, ct: Bytes, version: u16): (frames: seq<Frame>)
    requires |ct| < 0x1_0000
    ensures |frames| == |Pages(ct)|
  {
    var pages := Pages(ct);
    PageCount(ct);
    seq(|pages|, k requires 0 <= k < |pages| => MakeFrame(p, macKey, k, pages[k], version))
  }

  /** Frame count, indices, sizes, contents and MAC coverage of the frame loop. */
  lemma FramesShape(p: Primitives, macKey: Bytes, ct: Bytes, version: u16, k: nat)
    requires |ct| < 0x1_0000
    requires k < |Frames(p, macKey, ct, version)|
    ensures |Frames(p, macKey, ct, version)| == CeilDiv(|ct|, PageSize)
    ensures var f := Frames(p, macKey, ct, version)[k];
      && f.index == k
      && f.version == version
      && f.size == |f.payload|
      && f.payload == ct[PageSize * k .. PageEnd(|ct|, k)]
      && (k < |Frames(p, macKey, ct, version)| - 1 ==> f.size == PageSize)
      && (k == |Frames(p, macKey, ct, version)| - 1 ==>
            f.size == |ct| - PageSize * (|Frames(p, macKey, ct, version)| - 1))
      && f.headerMac == Hmac(p, macKey, Pack3(k, f.size, version))
      && f.payloadMac == Hmac(p, macKey, f.payload + Pack3(k, f.size, version))
  {
    PageCount(ct);
    PageAt(ct, k);
    PageSizes(ct, k);
  }

  /** No firmware, no frames. */
  lemma NoFirmwareNoFrames(p: Primitives, macKey: Bytes, version: u16)
    ensures Frames(p, macKey, [], version) == []
  {
    assert |Pages([])| == 0;
  }

  /** The payloads, taken in index order, give back the ciphertext. */
  lemma PayloadsConcat(p: Primitives, macKey: Bytes, ct: Bytes, version: u16)
    requires |ct| < 0x1_0000
    ensures var frames := Frames(p, macKey, ct, version);
      Flatten(seq(|frames|, k requires 0 <= k < |frames| => frames[k].payload)) == ct
  {
    var frames := Frames(p, macKey, ct, version);
    assert seq(|frames|, k requires 0 <= k < |frames| => frames[k].payload) == Pages(ct);
    PagesFlatten(ct);
  }

  /** A frame is a function of its own page: bytes of the ciphertext outside
      page `k` do not affect frame `k`. */
  lemma FrameLocality(p: Primitives, macKey: Bytes, ct: Bytes, ct': Bytes, version: u16, k: nat)
    requires |ct| == |ct'| < 0x1_0000
    requires k < |Frames(p, macKey, ct, version)|
    requires forall j :: PageSize * k <= j < PageEnd(|ct|, k) && j < |ct| ==> ct[j] == ct'[j]
    ensures k < |Frames(p, macKey, ct', version)|
    ensures Frames(p, macKey, ct, version)[k] == Frames(p, macKey, ct', version)[k]
  {
    PageCount(ct);
    PageCount(ct');
    PageAt(ct, k);
    PageAt(ct', k);
    assert Pages(ct)[k] == Pages(ct')[k];
  }

  /** Each frame is its payload plus 70 bytes, so the framed firmware is `70 N + L` long. */
  lemma {:induction false} WireLength(frames: seq<Frame>)
    requires forall k :: 0 <= k < |frames| ==> frames[k].size == |frames[k].payload|
    ensures |Wire(frames)| == FrameOverhead * |frames| + |Flatten(seq(|frames|, k requires 0 <= k < |frames| => frames[k].payload))|
  {
    if frames != [] {
      var rest := frames[1..];
      WireLength(rest);
      var pay := seq(|frames|, k requires 0 <= k < |frames| => frames[k].payload);
      assert pay[1..] == seq(|rest|, k requires 0 <= k < |rest| => rest[k].payload);
    }
  }

  // ---------------------------------------------------------------------
  // The blob.

  /** Lines 52 and 165: metadata, metadata MAC, frames, firmware MAC, message,
      message MAC, big MAC, IV, tag.  `messageField` is what the metadata
      claims as the message length; `msg` are the bytes actually shipped. */
  function Blob(p: Primitives, macKey: Bytes, version: u16, ct: Bytes,
                messageField: u16, msg: Bytes, iv: Block, tag: Block): Bytes
    requires |ct| < 0x1_0000
  {
    var metadata := Pack3(version, |ct|, messageField);
    metadata + Hmac(p, macKey, metadata)
    + Wire(Frames(p, macKey, ct, version)) + Hmac(p, macKey, ct)
    + msg + Hmac(p, macKey, msg)
    + Hmac(p, macKey, ct + metadata + msg)
    + iv + tag
  }

  predicate Packable<T>(firmware: Bytes, version: int, message: seq<T>)
  {
    0 <= version < 0x1_0000 && |firmware| < 0x1_0000 && |message| < 0x1_0000
  }

  /** `protect_firmware` as written: the metadata records `len(message)`,
      the number of characters, while the blob carries `message.encode()`. */
  function Bundle(p: Primitives, aesKey: Bytes, macKey: Bytes, iv: Block,
                  firmware: Bytes, version: int, message: string): Result<Bytes, BundleError>
  {
    if !Packable(firmware, version, message) then Failure(PackOverflow)
    else
      var sealed := GcmEncrypt(p, aesKey, iv, firmware);
      Success(Blob(p, macKey, version, sealed.0, |message|, Utf8.Encode(message), iv, sealed.1))
  }

  /** The bundler as evidently intended: the metadata records the number of
      message bytes shipped, so that the receiver's framing agrees with the
      blob for every message. */
  function BundleFixed(p: Primitives, aesKey: Bytes, macKey: Bytes, iv: Block,
                       firmware: Bytes, version: int, message: string): (r: Result<Bytes, BundleError>)
  {
    var msg := Utf8.Encode(message);
    if !Packable(firmware, version, msg) then Failure(PackOverflow)
    else
      var sealed := GcmEncrypt(p, aesKey, iv, firmware);
      Success(Blob(p, macKey, version, sealed.0, |msg|, msg, iv, sealed.1))
  }

  /** On ASCII messages the corrected bundler and the one as written agree. */
  lemma FixedAgreesOnAscii(p: Primitives, aesKey: Bytes, macKey: Bytes, iv: Block,
                           firmware: Bytes, version: int, message: string)
    requires Utf8.IsAscii(message)
    ensures BundleFixed(p, aesKey, macKey, iv, firmware, version, message)
         == Bundle(p, aesKey, macKey, iv, firmware, version, message)
  {
    Utf8.EncodedLength(message);
  }

  /** Total length: 38 + sum of (70 + size) over the frames + 32 + |msg| + 32 + 32 + 32. */
  lemma BlobLength(p: Primitives, macKey: Bytes, version: u16, ct: Bytes,
                   messageField: u16, msg: Bytes, iv: Block, tag: Block)
    requires |ct| < 0x1_0000
    ensures |Blob(p, macKey, version, ct, messageField, msg, iv, tag)|
         == 38 + FrameOverhead * CeilDiv(|ct|, PageSize) + |ct| + 32 + |msg| + 32 + 32 + 32
  {
    var frames := Frames(p, macKey, ct, version);
    forall k | 0 <= k < |frames| ensures frames[k].size == |frames[k].payload| {
      FramesShape(p, macKey, ct, version, k);
    }
    WireLength(frames);
    PayloadsConcat(p, macKey, ct, version);
    PageCount(ct);
  }

  /** The bundler fails exactly when a metadata field overflows 16 bits, and
      otherwise the metadata decodes to version, firmware length and message
      length. */
  lemma BundleMetadata(p: Primitives, aesKey: Bytes, macKey: Bytes, iv: Block,
                       firmware: Bytes, version: int, message: string)
    ensures Bundle(p, aesKey, macKey, iv, firmware, version, message).Failure?
        <==> (version < 0 || version >= 0x1_0000 || |firmware| >= 0x1_0000 || |message| >= 0x1_0000)
    ensures var r := Bundle(p, aesKey, macKey, iv, firmware, version, message);
      r.Success? ==>
        |r.value| >= 6 && U16At(r.value, 0) == version && U16At(r.value, 2) == |firmware|
        && U16At(r.value, 4) == |message|
  {
  }

  /** The message-size field equals the number of message bytes shipped if
      and only if the message is ASCII. */
  lemma MessageFieldMatchesIffAscii(message: string)
    ensures |message| == |Utf8.Encode(message)| <==> Utf8.IsAscii(message)
  {
    Utf8.EncodedLength(message);
  }

  // ---------------------------------------------------------------------
  // The procedure itself, with the frame loop of lines 98-122.

  /** One more frame on the wire: frame `k` is the header of page `k`, its
      MAC, the page and the MAC of page followed by header. */
  lemma WireStep(p: Primitives, macKey: Bytes, ct: Bytes, version: u16, k: nat)
    requires |ct| < 0x1_0000
    requires k < |Frames(p, macKey, ct, version)|
    ensures PageSize * k < |ct| && PageEnd(|ct|, k) <= |ct|
    ensures var frames := Frames(p, macKey, ct, version);
      var page := ct[PageSize * k .. PageEnd(|ct|, k)];
      var header := Pack3(k, |page|, version);
      Wire(frames[..k + 1])
        == Wire(frames[..k]) + header + Hmac(p, macKey, header) + page + Hmac(p, macKey, page + header)
  {
    var frames := Frames(p, macKey, ct, version);
    PageAt(ct, k);
    assert frames[..k + 1] == frames[..k] + [frames[k]];
    WireAppend(frames[..k], [frames[k]]);
    assert Wire([frames[k]]) == FrameBytes(frames[k]);
  }

  /** The frame loop of lines 97-119: `firmware_data` grows by one frame per
      1024-byte step over the ciphertext. */
  method BuildFrames(p: Primitives, macKey: Bytes, encryptedFirmware: Bytes, version: u16)
    returns (firmwareData: Bytes)
    requires |encryptedFirmware| < 0x1_0000
    ensures firmwareData == Wire(Frames(p, macKey, encryptedFirmware, version))
  {
    firmwareData := [];
    ghost var frames := Frames(p, macKey, encryptedFirmware, version);
    ghost var n := |frames|;
    PageCount(encryptedFirmware);
    var i := 0;
    ghost var k := 0;
    while i < |encryptedFirmware|
      invariant i == PageSize * k && k <= n
      invariant i < |encryptedFirmware| <==> k < n
      invariant firmwareData == Wire(frames[..k])
    {
      var page;
      if i + PageSize < |encryptedFirmware| {
        page := encryptedFirmware[i..i + PageSize];
      } else {
        page := encryptedFirmware[i..];
      }
      assert CeilDiv(i, PageSize) == k;
      var pageMetadata := Pack3(CeilDiv(i, PageSize), |page|, version);
      var fwMetadataHash := Hmac(p, macKey, pageMetadata);
      var fwDataHash := Hmac(p, macKey, page + pageMetadata);
      WireStep(p, macKey, encryptedFirmware, version, k);
      assert page == encryptedFirmware[PageSize * k .. PageEnd(|encryptedFirmware|, k)];
      firmwareData := firmwareData + pageMetadata + fwMetadataHash + page + fwDataHash;
      i, k := i + PageSize, k + 1;
    }
    assert frames[..k] == frames;
  }

  /** `protect_firmware` (lines 46-165), with the file reads and the write of
      the blob left to the caller. */
  method ProtectFirmware(p: Primitives, aesKey: Bytes, macKey: Bytes, iv: Block,
                         firmware: Bytes, version: int, message: string)
    returns (r: Result<Bytes, BundleError>)
    ensures r == Bundle(p, aesKey, macKey, iv, firmware, version, message)
  {
    if !(0 <= version < 0x1_0000 && |firmware| < 0x1_0000 && |message| < 0x1_0000) {
      return Failure(PackOverflow);
    }
    var metadata := Pack3(version, |firmware|, |message|);
    var metadataAndHash := metadata + Hmac(p, macKey, metadata);

    var sealed := GcmEncrypt(p, aesKey, iv, firmware);
    var encryptedFirmware, tag := sealed.0, sealed.1;
    var fwHashTotal := Hmac(p, macKey, encryptedFirmware);

    var firmwareData := BuildFrames(p, macKey, encryptedFirmware, version);
    firmwareData := firmwareData + fwHashTotal;

    var rmessage := Utf8.Encode(message);
    var releaseMessageData := rmessage + Hmac(p, macKey, rmessage);
    var bigMac := Hmac(p, macKey, encryptedFirmware + metadata + rmessage);
    r := Success(metadataAndHash + firmwareData + releaseMessageData + bigMac + iv + tag);
    assert r.value == Blob(p, macKey, version, encryptedFirmware, |message|, rmessage, iv, tag);
  }
}
