/** The host and the device agree on the QFU format: the image
    tools/sysupdate/qmfmlib/qfu.py builds is read by fw-manager/qfu/qfu.c
    field by field as the host wrote it, and an image built with the
    device's firmware key for a partition it fits in passes the device's
    header and block checks. */
module EndToEnd {
  import opened Wrappers
  import opened Bytes
  import Config
  import opened BlData
  import opened Platform
  import H = QfuHost
  import F = QfuFormat
  import Qfu
  import FwManagerUtils
  import opened Dfu

  /** Bytes that start with a host base header, then an extension type and
      a zero reserved field, read on the device as the host's fields: the
      host's 20-byte header and the first 4 bytes of every extended header
      together make up the device's 24-byte qfu_hdr_t. */
  lemma BaseHeaderAsRead(h: H.Header, t: nat, img: Bytes)
    requires H.FieldsInRange(h) && IsU16(t)
    requires |img| >= F.HDR_SIZE && img[..H.HEADER_SIZE] == H.Encode(h)
    requires img[20..22] == Le16(t) && img[22..24] == [0, 0]
    ensures F.Magic(img) == F.QFU_HDR_MAGIC
    ensures F.Vid(img) == h.vendorId && F.Pid(img) == h.productId && F.PidDfu(img) == h.productIdDfu
    ensures F.Partition(img) == h.partitionId && F.Version(img) == h.version
    ensures F.BlockSz(img) == h.blockSize.value && F.NBlocks(img) == h.numBlocks
    ensures F.ExtHdrType(img) == t && F.Rsvd(img) == 0
  {
    var enc := H.Encode(h);
    H.EncodeLayout(h);
    assert img[..4] == enc[..4];
    assert img[0] == img[..4][0] && img[1] == img[..4][1] && img[2] == img[..4][2] && img[3] == img[..4][3];
    assert img[4..6] == enc[4..6];
    assert img[6..8] == enc[6..8];
    assert img[8..10] == enc[8..10];
    assert img[10..12] == enc[10..12];
    assert img[12..16] == enc[12..16];
    assert img[16..18] == enc[16..18];
    assert img[18..20] == enc[18..20];
    Le16Slice(img, 4, h.vendorId);
    Le16Slice(img, 6, h.productId);
    Le16Slice(img, 8, h.productIdDfu);
    Le16Slice(img, 10, h.partitionId);
    Le32Slice(img, 12, h.version);
    Le16Slice(img, 16, h.blockSize.value);
    Le16Slice(img, 18, h.numBlocks);
    Le16Slice(img, 20, t);
    Le16Slice(img, 22, 0);
  }

  /** Any prefix of a built image long enough for qfu_hdr_t shows the
      device the updated header's fields and the extension `make` chose. */
  lemma MadeHeaderAsRead(h: H.Header, data: Bytes, key: Option<Bytes>, addSha256: bool,
                         sha: Bytes -> Digest, hmac: (Bytes, Bytes) -> Digest,
                         h1: H.Header, content: Bytes, m: nat)
    requires H.Make(h, data, key, addSha256, sha, hmac) == Success((h1, content))
    requires F.HDR_SIZE <= m <= |content|
    ensures var hdr := content[..m];
      && F.Magic(hdr) == F.QFU_HDR_MAGIC
      && F.Vid(hdr) == h1.vendorId && F.Pid(hdr) == h1.productId && F.PidDfu(hdr) == h1.productIdDfu
      && F.Partition(hdr) == h1.partitionId && F.Version(hdr) == h1.version
      && F.BlockSz(hdr) == h1.blockSize.value && F.NBlocks(hdr) == h1.numBlocks
      && F.ExtHdrType(hdr) == H.ExtId(H.ChooseExt(key, addSha256)) && F.Rsvd(hdr) == 0
  {
    H.MakeLayout(h, data, key, addSha256, sha, hmac, h1, content);
    var bs := h.blockSize.value;
    var e := H.ChooseExt(key, addSha256);
    var c := H.ExtCompute(e, h1, data, sha, hmac).value;
    var hdr := content[..m];
    assert content[H.HEADER_SIZE..H.HEADER_SIZE + |c|] == c;
    assert hdr[..H.HEADER_SIZE] == content[..H.HEADER_SIZE];
    assert hdr[20..22] == c[..2];
    assert hdr[22..24] == c[2..4];
    BaseHeaderAsRead(h1, H.ExtId(e), hdr);
  }

  /** A digest at offset 8 + 32i of the HMAC extension `c`, laid out at
      offset 20 of `hdr`, is the device's `hashes[i]`. */
  lemma ExtDigestAsRead(c: Bytes, hdr: Bytes, d: Digest, i: nat)
    requires 8 + 32 * i + 32 <= |c| && H.HEADER_SIZE + |c| <= |hdr|
    requires hdr[H.HEADER_SIZE..H.HEADER_SIZE + |c|] == c
    requires c[8 + 32 * i..8 + 32 * i + 32] == d
    ensures F.Hash(hdr, i) == Some(d)
  {
    SliceOfSlice(hdr, H.HEADER_SIZE, c, 8 + 32 * i, 8 + 32 * i + 32);
  }

  /** `hashes[n]` of the header `hdr` is the HMAC with `key` of every
      header byte before it. */
  predicate TagAt(hmac: (Bytes, Bytes) -> Digest, key: Bytes, hdr: Bytes, n: nat) {
    var size := F.HashOffset(n);
    size + 32 <= |hdr| && hmac(key, hdr[..size]) == hdr[size..size + 32]
  }

  /** With the base header `enc` and the HMAC extension `c` for `n` data
      blocks laid out in `hdr`, the tag the host computed over the base
      header and the extension before the tag is `hashes[n]`, and covers
      exactly the header bytes before it. */
  lemma ExtTagAsRead(hmac: (Bytes, Bytes) -> Digest, key: Bytes, enc: Bytes, c: Bytes, hdr: Bytes, n: nat)
    requires |enc| == H.HEADER_SIZE
    requires |c| == 8 + 32 * n + 32 && |hdr| >= H.HEADER_SIZE + |c|
    requires hdr[..H.HEADER_SIZE] == enc && hdr[H.HEADER_SIZE..H.HEADER_SIZE + |c|] == c
    requires c[|c| - 32..] == hmac(key, enc + c[..|c| - 32])
    ensures TagAt(hmac, key, hdr, n)
  {
    var size := F.HashOffset(n);
    SliceOfSlice(hdr, H.HEADER_SIZE, c, 0, |c| - 32);
    SliceOfSlice(hdr, H.HEADER_SIZE, c, |c| - 32, |c|);
    assert hdr[..size] == hdr[..H.HEADER_SIZE] + hdr[H.HEADER_SIZE..size];
  }

  /** The HMAC extension `c` of a built image as it lies in the image:
      after the base header, with the svn, the block digests and the tag
      over everything before the tag. */
  lemma MadeHmacExt(h: H.Header, data: Bytes, key: Option<Bytes>, addSha256: bool,
                    sha: Bytes -> Digest, hmac: (Bytes, Bytes) -> Digest,
                    h1: H.Header, content: Bytes) returns (c: Bytes)
    requires H.Make(h, data, key, addSha256, sha, hmac) == Success((h1, content))
    requires H.ChooseExt(key, addSha256).ExtHmac256?
    requires h.blockSize.Some? && h.blockSize.value > 0
    ensures var n := CeilDiv(|data|, h.blockSize.value);
      && |c| == 8 + 32 * n + 32 && H.HEADER_SIZE + |c| <= |content|
      && H.FieldsInRange(h1) && IsU32(h.svn)
      && content[..H.HEADER_SIZE] == H.Encode(h1)
      && content[H.HEADER_SIZE..H.HEADER_SIZE + |c|] == c
      && c[4..8] == Le32(h.svn)
      && c[|c| - 32..] == hmac(key.value, H.Encode(h1) + c[..|c| - 32])
  {
    var bs := h.blockSize.value;
    var e := H.ChooseExt(key, addSha256);
    H.MakeLayout(h, data, key, addSha256, sha, hmac, h1, content);
    c := H.ExtCompute(e, h1, data, sha, hmac).value;
    H.HmacLayout(e.key, h1, data, sha, hmac, bs, c);
  }

  /** The same extension as `compute` returned it, for the header `make`
      returned. */
  lemma MadeHmacCompute(h: H.Header, data: Bytes, key: Option<Bytes>, addSha256: bool,
                        sha: Bytes -> Digest, hmac: (Bytes, Bytes) -> Digest,
                        h1: H.Header, content: Bytes) returns (c: Bytes)
    requires H.Make(h, data, key, addSha256, sha, hmac) == Success((h1, content))
    requires H.ChooseExt(key, addSha256).ExtHmac256?
    requires h.blockSize.Some? && h.blockSize.value > 0
    ensures var n := CeilDiv(|data|, h.blockSize.value);
      && |c| == 8 + 32 * n + 32 && H.HEADER_SIZE + |c| <= |content|
      && content[H.HEADER_SIZE..H.HEADER_SIZE + |c|] == c
      && H.FieldsInRange(h1) && h1.blockSize == h.blockSize
      && H.ExtCompute(H.ExtHmac256(key.value), h1, data, sha, hmac) == Success(c)
  {
    var bs := h.blockSize.value;
    var e := H.ChooseExt(key, addSha256);
    H.MakeLayout(h, data, key, addSha256, sha, hmac, h1, content);
    c := H.ExtCompute(e, h1, data, sha, hmac).value;
    H.HmacLayout(e.key, h1, data, sha, hmac, bs, c);
  }

  /** Data block `i`: bytes i*bs up to i*bs + bs of the image data, cut
      off at its end. */
  function DataBlock(data: Bytes, bs: nat, i: nat): (r: Bytes)
    requires 0 < bs && i * bs < |data|
    ensures 0 < |r| <= bs && i * bs + |r| <= |data| && r == data[i * bs..i * bs + |r|]
  {
    data[i * bs..H.Min(i * bs + bs, |data|)]
  }

  /** A prefix of a prefix is a prefix of the whole. */
  lemma PrefixOfPrefix(content: Bytes, k: nat, m: nat)
    requires m <= k <= |content|
    ensures content[..k][..m] == content[..m]
  {
  }

  /** A slice of a prefix is the slice of the whole. */
  lemma PrefixSlice(content: Bytes, m: nat, lo: nat, hi: nat)
    requires lo <= hi <= m <= |content|
    ensures content[..m][lo..hi] == content[lo..hi]
  {
  }

  /** In a built HMAC image, a header prefix that reaches past the tag
      shows the device the svn the host signed, ... */
  lemma MadeSvnAsRead(h: H.Header, data: Bytes, key: Option<Bytes>, addSha256: bool,
                      sha: Bytes -> Digest, hmac: (Bytes, Bytes) -> Digest,
                      h1: H.Header, content: Bytes, m: nat)
    requires H.Make(h, data, key, addSha256, sha, hmac) == Success((h1, content))
    requires H.ChooseExt(key, addSha256).ExtHmac256?
    requires h.blockSize.Some? && h.blockSize.value > 0
    requires F.HashOffset(CeilDiv(|data|, h.blockSize.value)) + 32 <= m <= |content|
    ensures F.Svn(content[..m]) == h.svn
  {
    var c := MadeHmacExt(h, data, key, addSha256, sha, hmac, h1, content);
    var hdr := content[..m];
    PrefixSlice(content, m, H.HEADER_SIZE, H.HEADER_SIZE + |c|);
    SliceOfSlice(hdr, H.HEADER_SIZE, c, 4, 8);
    Le32Slice(hdr, 24, h.svn);
  }

  /** ... the digest of every data block `i` at `hashes[i]`, ... */
  lemma MadeDigestAsRead(h: H.Header, data: Bytes, key: Option<Bytes>, addSha256: bool,
                         sha: Bytes -> Digest, hmac: (Bytes, Bytes) -> Digest,
                         h1: H.Header, content: Bytes, m: nat, i: nat)
    requires H.Make(h, data, key, addSha256, sha, hmac) == Success((h1, content))
    requires H.ChooseExt(key, addSha256).ExtHmac256?
    requires h.blockSize.Some? && h.blockSize.value > 0
    requires F.HashOffset(CeilDiv(|data|, h.blockSize.value)) + 32 <= m <= |content|
    requires i < CeilDiv(|data|, h.blockSize.value)
    ensures i * h.blockSize.value < |data|
    ensures F.Hash(content[..m], i) == Some(sha(DataBlock(data, h.blockSize.value, i)))
  {
    var bs := h.blockSize.value;
    var c := MadeHmacCompute(h, data, key, addSha256, sha, hmac, h1, content);
    H.HmacDigestAt(key.value, h1, data, sha, hmac, bs, c, i);
    PrefixSlice(content, m, H.HEADER_SIZE, H.HEADER_SIZE + |c|);
    ExtDigestAsRead(c, content[..m], sha(DataBlock(data, bs, i)), i);
  }

  /** ... and, at `hashes[n]`, the HMAC with the key over every header
      byte before it: the bytes the host signed are the bytes the device
      checks. */
  lemma MadeTagAsRead(h: H.Header, data: Bytes, key: Option<Bytes>, addSha256: bool,
                      sha: Bytes -> Digest, hmac: (Bytes, Bytes) -> Digest,
                      h1: H.Header, content: Bytes, m: nat)
    requires H.Make(h, data, key, addSha256, sha, hmac) == Success((h1, content))
    requires H.ChooseExt(key, addSha256).ExtHmac256?
    requires h.blockSize.Some? && h.blockSize.value > 0
    requires F.HashOffset(CeilDiv(|data|, h.blockSize.value)) + 32 <= m <= |content|
    ensures TagAt(hmac, key.value, content[..m], CeilDiv(|data|, h.blockSize.value))
  {
    var c := MadeHmacExt(h, data, key, addSha256, sha, hmac, h1, content);
    PrefixSlice(content, m, 0, H.HEADER_SIZE);
    PrefixSlice(content, m, H.HEADER_SIZE, H.HEADER_SIZE + |c|);
    ExtTagAsRead(hmac, key.value, H.Encode(h1), c, content[..m], CeilDiv(|data|, h.blockSize.value));
  }

  /** The device counts every block after the first as data
      (NUM_HDR_BLOCKS is 1), while `make` counts the header's own blocks:
      the device sees the image's data blocks exactly when the host header
      fits one block. */
  lemma DataBlocksAgreeIff(h: H.Header, data: Bytes, key: Option<Bytes>, addSha256: bool,
                           sha: Bytes -> Digest, hmac: (Bytes, Bytes) -> Digest,
                           h1: H.Header, content: Bytes)
    requires H.Make(h, data, key, addSha256, sha, hmac) == Success((h1, content))
    ensures |content| >= F.HDR_SIZE
    ensures var bs := h.blockSize.value;
      (Qfu.DataBlocks(content[..F.HDR_SIZE]) == CeilDiv(|data|, bs)
       <==> H.HeaderBlocks(H.ChooseExt(key, addSha256), |data|, bs) == 1)
  {
    H.MakeLayout(h, data, key, addSha256, sha, hmac, h1, content);
    var bs := h.blockSize.value;
    var hb := H.HeaderBlocks(H.ChooseExt(key, addSha256), |data|, bs);
    assert hb >= 1;
    MadeHeaderAsRead(h, data, key, addSha256, sha, hmac, h1, content, F.HDR_SIZE);
  }

  /** A build's header buffer lies inside one QFU block, and an HMAC
      header for `n` data blocks that a partition of at most
      BL_PARTITION_MAX_PAGES pages can hold lies inside the header buffer. */
  lemma HmacHeaderFits(b: Config.Build, n: nat, pages: nat)
    requires Config.WellFormed(b)
    requires n * Config.PagesPerBlock(b) <= pages <= b.partitionMaxPages
    ensures F.HashOffset(n) + 32 <= Config.HdrBufSize(b) <= Config.BlockSize(b)
  {
    var ppb, mp := Config.PagesPerBlock(b), b.partitionMaxPages;
    if ppb == 2 {
      assert n <= mp / 2;
    }
  }

  /** A non-empty header shorter than a block fills one block. */
  lemma OneBlock(x: nat, bs: nat)
    requires 0 < x <= bs
    ensures CeilDiv(x, bs) == 1
  {
    CeilDivUnique(x, bs, 1);
  }

  /** The ids the host put in the header are the ones this build enforces. */
  predicate IdsFor(b: Config.Build, h: H.Header) {
    && (b.enforceVid ==> h.vendorId == Config.DFU_CFG_VID)
    && (b.enforceAppPid ==> h.productId == Config.DFU_CFG_PID)
    && (b.enforceDfuPid ==> h.productIdDfu == Config.DfuPidDfu(b))
  }

  /** What `make` fixes about the header it returns and the image length:
      only `num_blocks` changes, and it counts the header blocks and the
      data blocks. */
  lemma MadeShape(h: H.Header, data: Bytes, key: Option<Bytes>, addSha256: bool,
                  sha: Bytes -> Digest, hmac: (Bytes, Bytes) -> Digest,
                  h1: H.Header, content: Bytes)
    requires H.Make(h, data, key, addSha256, sha, hmac) == Success((h1, content))
    ensures h.blockSize.Some? && h.blockSize.value > 0
    ensures var bs := h.blockSize.value;
      var hb := H.HeaderBlocks(H.ChooseExt(key, addSha256), |data|, bs);
      && hb >= 1
      && h1 == h.(numBlocks := CeilDiv(|data|, bs) + hb)
      && |content| == hb * bs + |data|
  {
    H.MakeLayout(h, data, key, addSha256, sha, hmac, h1, content);
  }

  /** The header bytes `hdr` carry the fields of the host header `h`,
      `n` data blocks and the extension type `ext`. */
  predicate FieldsOf(h: H.Header, n: nat, ext: nat, hdr: Bytes)
    requires F.HDR_SIZE <= |hdr|
  {
    && F.Magic(hdr) == F.QFU_HDR_MAGIC
    && F.Vid(hdr) == h.vendorId && F.Pid(hdr) == h.productId && F.PidDfu(hdr) == h.productIdDfu
    && F.Partition(hdr) == h.partitionId && h.blockSize == Some(F.BlockSz(hdr))
    && F.NBlocks(hdr) == n + 1 && F.ExtHdrType(hdr) == ext
  }

  /** A built image whose header fits one block of `bs` bytes: the header
      buffer of the first `m` bytes shows the device the host's fields and
      `n` data blocks. */
  lemma MadeOneBlock(h: H.Header, data: Bytes, key: Option<Bytes>, addSha256: bool,
                     sha: Bytes -> Digest, hmac: (Bytes, Bytes) -> Digest,
                     h1: H.Header, content: Bytes, bs: nat, m: nat)
    requires H.Make(h, data, key, addSha256, sha, hmac) == Success((h1, content))
    requires h.blockSize == Some(bs)
    requires H.HEADER_SIZE + H.ExtSize(H.ChooseExt(key, addSha256), |data|, bs) <= bs
    requires F.HDR_SIZE <= m <= bs
    ensures |content| == bs + |data|
    ensures FieldsOf(h, CeilDiv(|data|, bs), H.ExtId(H.ChooseExt(key, addSha256)), content[..m])
  {
    MadeShape(h, data, key, addSha256, sha, hmac, h1, content);
    OneBlock(H.HEADER_SIZE + H.ExtSize(H.ChooseExt(key, addSha256), |data|, bs), bs);
    MadeHeaderAsRead(h, data, key, addSha256, sha, hmac, h1, content, m);
  }

  /** A built HMAC image whose header fits one block of `bs` bytes, read
      through a header buffer of `m` bytes that reaches past the tag:
      the buffer shows the device the host's fields, svn and tag. */
  lemma MadeHmacHeader(h: H.Header, data: Bytes, key: Digest,
                       sha: Bytes -> Digest, hmac: (Bytes, Bytes) -> Digest,
                       h1: H.Header, content: Bytes, bs: nat, m: nat)
    requires H.Make(h, data, Some(key), false, sha, hmac) == Success((h1, content))
    requires h.blockSize == Some(bs) && bs > 0
    requires F.HashOffset(CeilDiv(|data|, bs)) + 32 <= m <= bs
    ensures |content| == bs + |data|
    ensures var n := CeilDiv(|data|, bs);
      var hdr := content[..m];
      && FieldsOf(h, n, F.QFU_EXT_HDR_HMAC256, hdr)
      && F.Svn(hdr) == h.svn
      && TagAt(hmac, key, hdr, n)
  {
    var n := CeilDiv(|data|, bs);
    assert H.HEADER_SIZE + H.ExtSize(H.ExtHmac256(key), |data|, bs) == F.HashOffset(n) + 32;
    MadeOneBlock(h, data, Some(key), false, sha, hmac, h1, content, bs, m);
    MadeSvnAsRead(h, data, Some(key), false, sha, hmac, h1, content, m);
    MadeTagAsRead(h, data, Some(key), false, sha, hmac, h1, content, m);
  }

  /** A header block whose stored prefix carries the fields of a host
      header naming this product, the active alternate setting and the
      device's block size, `n` data blocks that fit the partition and no
      extension passes `qfu_handle_hdr` on a build without
      authentication. */
  lemma PlainBlockAccepted(e: Env, s: Store, q: Qfu.QfuState, h: H.Header, blk: Bytes, n: nat)
    requires Qfu.Ready(e, s, q) && !e.b.auth && |blk| == Config.BlockSize(e.b)
    requires h.blockSize == Some(Config.BlockSize(e.b)) && h.partitionId == q.alt && IdsFor(e.b, h)
    requires FieldsOf(h, n, F.QFU_EXT_HDR_NONE, blk[..Config.HdrBufSize(e.b)])
    requires n * Config.PagesPerBlock(e.b) <= Qfu.Part(e, s, q).numPages
    ensures var r := Qfu.HandleHdr(e, s, q, blk);
      r.status == Ok && Qfu.DataBlocks(r.hdr) == n
  {
    var hdr := blk[..Config.HdrBufSize(e.b)];
    assert Qfu.HeaderAcceptable(e, s.shadow, Qfu.Part(e, s, q), q.alt, hdr);
  }

  /** The same on an authenticated build for a header with the HMAC
      extension, when the device is provisioned, the svn is no lower than
      the target's and the tag is the HMAC with the firmware key. */
  lemma HmacBlockAccepted(e: Env, s: Store, q: Qfu.QfuState, h: H.Header, blk: Bytes, n: nat)
    requires Qfu.Ready(e, s, q) && e.b.auth && |blk| == Config.BlockSize(e.b)
    requires !FwManagerUtils.IsZeroKey(s.shadow.fwKey)
    requires h.blockSize == Some(Config.BlockSize(e.b)) && h.partitionId == q.alt && IdsFor(e.b, h)
    requires h.svn >= Qfu.TargetSvn(s.shadow, Qfu.Part(e, s, q))
    requires var hdr := blk[..Config.HdrBufSize(e.b)];
      && FieldsOf(h, n, F.QFU_EXT_HDR_HMAC256, hdr)
      && F.Svn(hdr) == h.svn
      && TagAt(e.hmac, s.shadow.fwKey, hdr, n)
    requires n * Config.PagesPerBlock(e.b) <= Qfu.Part(e, s, q).numPages
    ensures var r := Qfu.HandleHdr(e, s, q, blk);
      r.status == Ok && Qfu.DataBlocks(r.hdr) == n
  {
    var hdr := blk[..Config.HdrBufSize(e.b)];
    var p := Qfu.Part(e, s, q);
    assert Qfu.MacMatches(e, s.shadow.fwKey, hdr, n);
    assert Qfu.CheckHmacHdr(e, s.shadow, p, hdr, n) == Qfu.HmacOk;
    assert Qfu.HeaderAcceptable(e, s.shadow, p, q.alt, hdr);
  }

  /** The image is at least a block long, and its first block passes
      `qfu_handle_hdr` with status OK and `dataBlocks` data blocks. */
  predicate HeaderBlockAccepted(e: Env, s: Store, q: Qfu.QfuState, content: Bytes, dataBlocks: nat)
    requires Qfu.Ready(e, s, q)
  {
    && |content| >= Config.BlockSize(e.b)
    && var r := Qfu.HandleHdr(e, s, q, content[..Config.BlockSize(e.b)]);
      && r.status == Ok
      && Qfu.DataBlocks(r.hdr) == dataBlocks
  }

  /** An image `make` built with the device's firmware key, the device's
      block size, the partition's alternate setting and an svn no lower
      than the target's, whose data fits the partition, passes
      `qfu_handle_hdr` on an authenticated build: its header is one block,
      the device counts its data blocks as the host did, and the status is
      OK. */
  lemma DeviceAcceptsHmacImage(e: Env, s: Store, q: Qfu.QfuState, h: H.Header, data: Bytes,
                               h1: H.Header, content: Bytes)
    requires Qfu.Ready(e, s, q) && e.b.auth
    requires !FwManagerUtils.IsZeroKey(s.shadow.fwKey)
    requires H.Make(h, data, Some(s.shadow.fwKey), false, e.sha, e.hmac) == Success((h1, content))
    requires h.blockSize == Some(Config.BlockSize(e.b)) && h.partitionId == q.alt && IdsFor(e.b, h)
    requires h.svn >= Qfu.TargetSvn(s.shadow, Qfu.Part(e, s, q))
    requires CeilDiv(|data|, Config.BlockSize(e.b)) * Config.PagesPerBlock(e.b) <= Qfu.Part(e, s, q).numPages
    requires Qfu.Part(e, s, q).numPages <= e.b.partitionMaxPages
    ensures HeaderBlockAccepted(e, s, q, content, CeilDiv(|data|, Config.BlockSize(e.b)))
  {
    var bs, m := Config.BlockSize(e.b), Config.HdrBufSize(e.b);
    HmacHeaderFits(e.b, CeilDiv(|data|, bs), Qfu.Part(e, s, q).numPages);
    MadeHmacHeader(h, data, s.shadow.fwKey, e.sha, e.hmac, h1, content, bs, m);
    var blk := content[..bs];
    PrefixOfPrefix(content, bs, m);
    HmacBlockAccepted(e, s, q, h, blk, CeilDiv(|data|, bs));
  }

  /** On a build without authentication, an image `make` built with
      neither key nor SHA-256 extension passes `qfu_handle_hdr` under the
      same conditions. */
  lemma DeviceAcceptsPlainImage(e: Env, s: Store, q: Qfu.QfuState, h: H.Header, data: Bytes,
                                h1: H.Header, content: Bytes)
    requires Qfu.Ready(e, s, q) && !e.b.auth
    requires H.Make(h, data, None, false, e.sha, e.hmac) == Success((h1, content))
    requires h.blockSize == Some(Config.BlockSize(e.b)) && h.partitionId == q.alt && IdsFor(e.b, h)
    requires CeilDiv(|data|, Config.BlockSize(e.b)) * Config.PagesPerBlock(e.b) <= Qfu.Part(e, s, q).numPages
    ensures HeaderBlockAccepted(e, s, q, content, CeilDiv(|data|, Config.BlockSize(e.b)))
  {
    var bs, m := Config.BlockSize(e.b), Config.HdrBufSize(e.b);
    MadeOneBlock(h, data, None, false, e.sha, e.hmac, h1, content, bs, m);
    var blk := content[..bs];
    PrefixOfPrefix(content, bs, m);
    PlainBlockAccepted(e, s, q, h, blk, CeilDiv(|data|, bs));
  }

  /** The device has no SHA-256 extended header: an image built with
      `add_sha256` is refused by `qfu_handle_hdr` whatever the build. */
  lemma DeviceRefusesSha256Image(e: Env, s: Store, q: Qfu.QfuState, h: H.Header, data: Bytes,
                                 key: Option<Bytes>, h1: H.Header, content: Bytes)
    requires Qfu.Ready(e, s, q)
    requires H.Make(h, data, key, true, e.sha, e.hmac) == Success((h1, content))
    ensures Qfu.HandleHdr(e, s, q, content[..H.Min(|content|, Config.BlockSize(e.b))]).status != Ok
  {
    var bs := Config.BlockSize(e.b);
    var blk := content[..H.Min(|content|, bs)];
    if |blk| == bs {
      var m := Config.HdrBufSize(e.b);
      assert blk[..m] == content[..m];
      MadeHeaderAsRead(h, data, key, true, e.sha, e.hmac, h1, content, m);
    }
  }

  /** Every data block of a built HMAC image the device accepted passes
      `qfu_hmac_check_block_hash`: data block `i` (DFU block `i + 1`) is
      the `i`-th `bs`-byte slice of the image data, and its digest is at
      `hashes[i]`. */
  lemma DeviceAcceptsHmacBlocks(e: Env, s: Store, q: Qfu.QfuState, h: H.Header, data: Bytes,
                                h1: H.Header, content: Bytes, bs: nat, i: nat)
    requires Qfu.Ready(e, s, q) && e.b.auth && bs == Config.BlockSize(e.b)
    requires H.Make(h, data, Some(s.shadow.fwKey), false, e.sha, e.hmac) == Success((h1, content))
    requires h.blockSize == Some(bs)
    requires CeilDiv(|data|, bs) * Config.PagesPerBlock(e.b) <= Qfu.Part(e, s, q).numPages
    requires Qfu.Part(e, s, q).numPages <= e.b.partitionMaxPages
    requires i < CeilDiv(|data|, bs)
    ensures |content| >= Config.HdrBufSize(e.b)
    ensures i * bs < |data|
    ensures Qfu.BlockHashOk(e, content[..Config.HdrBufSize(e.b)], i + 1, DataBlock(data, bs, i))
  {
    var m := Config.HdrBufSize(e.b);
    HmacHeaderFits(e.b, CeilDiv(|data|, bs), Qfu.Part(e, s, q).numPages);
    MadeHmacHeader(h, data, s.shadow.fwKey, e.sha, e.hmac, h1, content, bs, m);
    MadeDigestAsRead(h, data, Some(s.shadow.fwKey), false, e.sha, e.hmac, h1, content, m, i);
  }
}
