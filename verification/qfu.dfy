/** The QFU request handler (fw-manager/qfu/qfu.c, fw-manager/qfu/qfu_hmac.c):
    the DFU handler behind every alternate setting from 1 on, which
    receives a QFU image for partition `alt - 1` as a header block followed
    by data blocks, writes the data blocks to the partition's flash pages
    and records the new image in BL-Data when the transfer ends.

    A handler call that runs `bl_data_sanitize` on a compromised BL-Data
    section never returns; such a call yields None. */
module Qfu {
  import opened Wrappers
  import opened Bytes
  import Config
  import opened BlData
  import opened Dfu
  import opened Platform
  import opened FwManagerUtils
  import F = QfuFormat

  /** The handler's own variables: `qfu_err_status`, `active_alt_setting`
      and `hdr_buf`. The partition pointer `part` is the shadow's partition
      `alt - 1`. */
  datatype QfuState = QfuState(status: Status, alt: nat, hdr: Bytes)

  predicate Fits(e: Env, q: QfuState) {
    && |q.hdr| == Config.HdrBufSize(e.b)
    && 1 <= q.alt <= Config.NumPartitions(e.b)
    && q.alt < 0x100
  }

  /** What the handler relies on: a build, a store and handler variables
      of the right shape, and a shadow whose partitions name targets of its
      table. */
  predicate Ready(e: Env, s: Store, q: QfuState) {
    Valid(e) && StoreShape(e.b, s) && Fits(e, q) && Indexed(s.shadow)
  }

  /** `part`: the partition the active alternate setting stands for. */
  function Part(e: Env, s: Store, q: QfuState): Partition
    requires Ready(e, s, q)
  {
    s.shadow.partitions[q.alt - 1]
  }

  /** The svn BL-Data records for the target partition `p` belongs to. */
  function TargetSvn(d: BlData, p: Partition): nat
    requires p.targetIdx < |d.targets|
  {
    d.targets[p.targetIdx].svn
  }

  /* ---------------------------------------------------------------------- */
  /* qfu_hmac_check_hdr                                                     */

  /** The outcomes of `qfu_hmac_check_hdr`. */
  datatype HmacCheck = HmacOk | DefaultKey | SvnTooLow | MacMismatch

  /** The C return value: 0 on success, -1 for an unprovisioned device, -2
      for a rolled-back image, the non-zero memcmp result otherwise. */
  function HmacCheckCode(c: HmacCheck): (r: int)
    ensures r == 0 <==> c == HmacOk
  {
    match c
    case HmacOk => 0
    case DefaultKey => -1
    case SvnTooLow => -2
    case MacMismatch => 1
  }

  /** The header bytes the HMAC covers and the HMAC stored after them, when
      both lie in the header buffer. */
  predicate MacMatches(e: Env, key: Digest, hdr: Bytes, n: nat) {
    var size := F.HashOffset(n);
    && size + 32 <= |hdr|
    && e.hmac(key, hdr[..size]) == hdr[size..size + 32]
  }

  /** Checks the HMAC extended header of an image with `n` data blocks for
      partition `p`, with the firmware key of `d`: the device must be
      provisioned, the image's svn may not be below the target's, and the
      HMAC of the base header, the svn and the `n` block digests must equal
      `hashes[n]`. A `hashes[n]` beyond the header buffer counts as a
      mismatch. */
  function CheckHmacHdr(e: Env, d: BlData, p: Partition, hdr: Bytes, n: nat): (r: HmacCheck)
    requires F.HDR_SIZE + F.HMAC_HDR_SIZE <= |hdr| && p.targetIdx < |d.targets|
    ensures r == DefaultKey <==> IsZeroKey(d.fwKey)
    ensures r == SvnTooLow <==> !IsZeroKey(d.fwKey) && F.Svn(hdr) < TargetSvn(d, p)
    ensures r == HmacOk <==>
      && !IsZeroKey(d.fwKey)
      && F.Svn(hdr) >= TargetSvn(d, p)
      && MacMatches(e, d.fwKey, hdr, n)
  {
    if IsZeroKey(d.fwKey) then DefaultKey
    else if F.Svn(hdr) < TargetSvn(d, p) then SvnTooLow
    else
      match F.Hash(hdr, n)
      case None => MacMismatch
      case Some(mac) => if e.hmac(d.fwKey, hdr[..F.HashOffset(n)]) == mac then HmacOk else MacMismatch
  }

  /** The svn check lets an equal svn through and stops a lower one. */
  lemma SvnMonotone(e: Env, d: BlData, p: Partition, hdr: Bytes, n: nat)
    requires F.HDR_SIZE + F.HMAC_HDR_SIZE <= |hdr| && p.targetIdx < |d.targets|
    requires !IsZeroKey(d.fwKey)
    ensures F.Svn(hdr) == TargetSvn(d, p) ==> CheckHmacHdr(e, d, p, hdr, n) != SvnTooLow
    ensures CheckHmacHdr(e, d, p, hdr, n) != SvnTooLow <==> F.Svn(hdr) >= TargetSvn(d, p)
  {
  }

  /* ---------------------------------------------------------------------- */
  /* qfu_handle_hdr                                                         */

  /** `n_blocks - NUM_HDR_BLOCKS` in a 16-bit variable: 65535 for an image
      declaring no blocks at all. */
  function DataBlocks(hdr: Bytes): (r: nat)
    requires F.HDR_SIZE <= |hdr|
    ensures IsU16(r)
    ensures F.NBlocks(hdr) >= 1 ==> r == F.NBlocks(hdr) - 1
    ensures F.NBlocks(hdr) == 0 ==> r == U16_LIMIT - 1
  {
    (F.NBlocks(hdr) + U16_LIMIT - 1) % U16_LIMIT
  }

  /** QFU_EXPECTED_EXT_HDR */
  function ExpectedExtHdr(b: Config.Build): nat {
    if b.auth then F.QFU_EXT_HDR_HMAC256 else F.QFU_EXT_HDR_NONE
  }

  /** The image is a QFU image for this product. */
  predicate IdsMatch(b: Config.Build, hdr: Bytes)
    requires F.HDR_SIZE <= |hdr|
  {
    && F.Magic(hdr) == F.QFU_HDR_MAGIC
    && (b.enforceVid ==> F.Vid(hdr) == Config.DFU_CFG_VID)
    && (b.enforceAppPid ==> F.Pid(hdr) == Config.DFU_CFG_PID)
    && (b.enforceDfuPid ==> F.PidDfu(hdr) == Config.DfuPidDfu(b))
  }

  /** The data blocks fit in the partition's pages. */
  predicate FitsPartition(b: Config.Build, p: Partition, hdr: Bytes)
    requires F.HDR_SIZE <= |hdr|
  {
    DataBlocks(hdr) * Config.PagesPerBlock(b) <= p.numPages
  }

  /** Everything a header must satisfy, in no particular order. */
  predicate HeaderAcceptable(e: Env, d: BlData, p: Partition, alt: nat, hdr: Bytes)
    requires F.HDR_SIZE + F.HMAC_HDR_SIZE <= |hdr| && p.targetIdx < |d.targets|
  {
    && IdsMatch(e.b, hdr)
    && F.Partition(hdr) == alt
    && F.BlockSz(hdr) == Config.BlockSize(e.b)
    && FitsPartition(e.b, p, hdr)
    && F.ExtHdrType(hdr) == ExpectedExtHdr(e.b)
    && (e.b.auth ==> CheckHmacHdr(e, d, p, hdr, DataBlocks(hdr)) == HmacOk)
  }

  /** The checks of `qfu_handle_hdr` on a stored header: a foreign image is
      errTARGET; an image for another alternate setting, or one that does
      not fit the partition, errADDRESS; a wrong block size, extended
      header type or HMAC header, errFILE. */
  function CheckHdr(e: Env, d: BlData, p: Partition, alt: nat, hdr: Bytes): (r: Status)
    requires F.HDR_SIZE + F.HMAC_HDR_SIZE <= |hdr| && p.targetIdx < |d.targets|
    ensures r == Ok <==> HeaderAcceptable(e, d, p, alt, hdr)
    ensures r == Ok || r == ErrTarget || r == ErrAddress || r == ErrFile
    ensures r == ErrTarget <==> !IdsMatch(e.b, hdr)
    ensures IdsMatch(e.b, hdr) && F.Partition(hdr) != alt ==> r == ErrAddress
    ensures r == ErrAddress ==> F.Partition(hdr) != alt || !FitsPartition(e.b, p, hdr)
    ensures r == ErrFile ==>
      || F.BlockSz(hdr) != Config.BlockSize(e.b)
      || F.ExtHdrType(hdr) != ExpectedExtHdr(e.b)
      || (e.b.auth && CheckHmacHdr(e, d, p, hdr, DataBlocks(hdr)) != HmacOk)
  {
    if !IdsMatch(e.b, hdr) then ErrTarget
    else if F.Partition(hdr) != alt then ErrAddress
    else if F.BlockSz(hdr) != Config.BlockSize(e.b) then ErrFile
    else if !FitsPartition(e.b, p, hdr) then ErrAddress
    else if F.ExtHdrType(hdr) != ExpectedExtHdr(e.b) then ErrFile
    else if e.b.auth && HmacCheckCode(CheckHmacHdr(e, d, p, hdr, DataBlocks(hdr))) != 0 then ErrFile
    else Ok
  }

  /** `qfu_handle_hdr`: a header block must be exactly one QFU block long;
      its first HDR_BUF_SIZE bytes are kept, whatever the checks decide. */
  function HandleHdr(e: Env, s: Store, q: QfuState, data: Bytes): (r: QfuState)
    requires Ready(e, s, q)
    ensures Fits(e, r) && r.alt == q.alt
    ensures |data| != Config.BlockSize(e.b) ==> r == q.(status := ErrAddress)
    ensures |data| == Config.BlockSize(e.b) ==>
      && r.hdr == data[..Config.HdrBufSize(e.b)]
      && (r.status == Ok <==> HeaderAcceptable(e, s.shadow, Part(e, s, q), q.alt, r.hdr))
  {
    if |data| != Config.BlockSize(e.b) then q.(status := ErrAddress)
    else
      var hdr := data[..Config.HdrBufSize(e.b)];
      q.(hdr := hdr, status := CheckHdr(e, s.shadow, Part(e, s, q), q.alt, hdr))
  }

  /** When the partition respects BL_PARTITION_MAX_PAGES, every digest an
      accepted header's size check allows, and the HMAC after them, lie
      inside the header buffer. */
  lemma DigestsInBuffer(e: Env, p: Partition, hdr: Bytes)
    requires Valid(e) && |hdr| == Config.HdrBufSize(e.b)
    requires p.numPages <= e.b.partitionMaxPages
    requires FitsPartition(e.b, p, hdr)
    ensures F.HashOffset(DataBlocks(hdr)) + 32 <= |hdr|
  {
    var n, ppb, m := DataBlocks(hdr), Config.PagesPerBlock(e.b), e.b.partitionMaxPages;
    assert n * ppb <= m;
    if ppb == 2 {
      assert n <= m / 2;
    }
  }

  /* ---------------------------------------------------------------------- */
  /* qfu_handle_blk                                                         */

  /** Block `blk` is one the header announces, no longer than the declared
      block size, and exactly that size unless it is the last one. */
  predicate BlockValid(hdr: Bytes, blk: nat, len: nat)
    requires F.HDR_SIZE <= |hdr|
  {
    && blk < F.NBlocks(hdr)
    && len <= F.BlockSz(hdr)
    && (blk + 1 < F.NBlocks(hdr) ==> len == F.BlockSz(hdr))
  }

  /** `blk_buf` after a block was copied in: the data, then 0xFF up to a
      whole QFU block. */
  function BlockBuffer(b: Config.Build, data: Bytes): (r: Bytes)
    requires |data| <= Config.BlockSize(b)
    ensures |r| == Config.BlockSize(b)
    ensures r[..|data|] == data && Blank(r[|data|..])
  {
    var r := data + Fill(Config.BlockSize(b) - |data|, 0xFF);
    assert r[|data|..] == Fill(Config.BlockSize(b) - |data|, 0xFF);
    r
  }

  /** `qfu_hmac_check_block_hash`: the SHA-256 of the block's `len` bytes is
      `hashes[blk - 1]` (a digest beyond the header buffer never matches). */
  predicate BlockHashOk(e: Env, hdr: Bytes, blk: nat, data: Bytes)
    requires blk >= 1
  {
    match F.Hash(hdr, blk - 1)
    case None => false
    case Some(h) => e.sha(data) == h
  }

  /** The first flash page data block `blk` goes to. */
  function BlockFirstPage(b: Config.Build, p: Partition, blk: nat): nat
    requires blk >= 1
  {
    p.firstPage + (blk - 1) * Config.PagesPerBlock(b)
  }

  /** The application page `k` is one of those block `blk` is written to. */
  predicate InBlock(b: Config.Build, p: Partition, blk: nat, k: (nat, nat))
    requires blk >= 1
  {
    k.0 == p.controller && BlockFirstPage(b, p, blk) <= k.1 < BlockFirstPage(b, p, blk) + Config.PagesPerBlock(b)
  }

  lemma MulMono(i: nat, n: nat, m: nat)
    requires i <= n
    ensures i * m <= n * m
  {
  }

  /** The `i`th page of a block buffer. */
  function PageOfBlock(b: Config.Build, buf: Bytes, i: nat): (r: Bytes)
    requires |buf| == Config.BlockSize(b) && i < Config.PagesPerBlock(b)
    ensures |r| == b.pageSize
  {
    MulMono(i + 1, Config.PagesPerBlock(b), b.pageSize);
    buf[i * b.pageSize..(i + 1) * b.pageSize]
  }

  /** The page-write loop of `qfu_handle_blk`, from page `i` of the block on.
      A page the flash does not have is left alone. */
  function WritePages(b: Config.Build, p: Partition, blk: nat, buf: Bytes, i: nat, app: AppFlash): AppFlash
    requires blk >= 1 && |buf| == Config.BlockSize(b) && i <= Config.PagesPerBlock(b)
    decreases Config.PagesPerBlock(b) - i
  {
    if i == Config.PagesPerBlock(b) then app
    else
      var k := (p.controller, BlockFirstPage(b, p, blk) + i);
      var app' := if k in app then app[k := PageOfBlock(b, buf, i)] else app;
      WritePages(b, p, blk, buf, i + 1, app')
  }

  /** The loop programs exactly the existing pages of the block, page `j`
      of the block with the `j`th page of the buffer, and changes no other
      page; no page appears or disappears. */
  lemma {:induction false} WritePagesEffect(b: Config.Build, p: Partition, blk: nat, buf: Bytes, i: nat, app: AppFlash)
    requires blk >= 1 && |buf| == Config.BlockSize(b) && i <= Config.PagesPerBlock(b)
    ensures var r := WritePages(b, p, blk, buf, i, app);
      && r.Keys == app.Keys
      && (forall k: (nat, nat) :: k in app && InBlock(b, p, blk, k) && k.1 >= BlockFirstPage(b, p, blk) + i ==>
            r[k] == PageOfBlock(b, buf, k.1 - BlockFirstPage(b, p, blk)))
      && (forall k: (nat, nat) :: k in app && !(InBlock(b, p, blk, k) && k.1 >= BlockFirstPage(b, p, blk) + i) ==>
            r[k] == app[k])
    decreases Config.PagesPerBlock(b) - i
  {
    if i < Config.PagesPerBlock(b) {
      var k := (p.controller, BlockFirstPage(b, p, blk) + i);
      var app' := if k in app then app[k := PageOfBlock(b, buf, i)] else app;
      WritePagesEffect(b, p, blk, buf, i + 1, app');
    }
  }

  /** The whole loop: the block's existing pages get the buffer's pages,
      every other page stays. */
  lemma WriteBlockEffect(b: Config.Build, p: Partition, blk: nat, buf: Bytes, app: AppFlash)
    requires blk >= 1 && |buf| == Config.BlockSize(b)
    ensures var r := WritePages(b, p, blk, buf, 0, app);
      && r.Keys == app.Keys
      && (forall k: (nat, nat) :: k in app && InBlock(b, p, blk, k) ==>
            r[k] == PageOfBlock(b, buf, k.1 - BlockFirstPage(b, p, blk)))
      && (forall k: (nat, nat) :: k in app && !InBlock(b, p, blk, k) ==> r[k] == app[k])
  {
    WritePagesEffect(b, p, blk, buf, 0, app);
  }

  /** Replace partition `i` of a record. */
  function SetPartition(b: Config.Build, d: BlData, i: nat, p: Partition): (r: BlData)
    requires WellFormed(b, d) && i < |d.partitions| && PartitionInRange(p)
    ensures WellFormed(b, r)
    ensures r == d.(partitions := d.partitions[i := p])
  {
    d.(partitions := d.partitions[i := p])
  }

  /** Replace target `i` of a record. */
  function SetTarget(b: Config.Build, d: BlData, i: nat, t: Target): (r: BlData)
    requires WellFormed(b, d) && i < |d.targets| && TargetInRange(t)
    ensures WellFormed(b, r)
    ensures r == d.(targets := d.targets[i := t])
  {
    d.(targets := d.targets[i := t])
  }

  /** `prepare_bl_data`: mark the partition inconsistent and write BL-Data
      back, so that a failed update is erased by the next sanitize. */
  function PrepareBlData(e: Env, s: Store, q: QfuState): (r: Store)
    requires Ready(e, s, q)
    ensures StoreShape(e.b, r) && Synced(e.b, r) && r.app == s.app
    ensures r.shadow.partitions == s.shadow.partitions[q.alt - 1 := Part(e, s, q).(isConsistent := 0)]
    ensures r.shadow.targets == s.shadow.targets
    ensures r.shadow.fwKey == s.shadow.fwKey && r.shadow.rvKey == s.shadow.rvKey
  {
    PartitionInRangeFields(Part(e, s, q));
    PartitionInRangeFields(Part(e, s, q).(isConsistent := 0));
    var d := SetPartition(e.b, s.shadow, q.alt - 1, Part(e, s, q).(isConsistent := 0));
    WritebackSynced(e.b, s.(shadow := d));
    Writeback(e.b, s.(shadow := d))
  }

  /** Marking the partition inconsistent keeps its target index. */
  lemma PreparedIndexed(e: Env, s: Store, q: QfuState)
    requires Ready(e, s, q)
    ensures Indexed(PrepareBlData(e, s, q).shadow)
  {
    var ps := PrepareBlData(e, s, q).shadow.partitions;
    forall i | 0 <= i < |ps|
      ensures ps[i].targetIdx < |PrepareBlData(e, s, q).shadow.targets|
    {
      if i != q.alt - 1 {
        assert ps[i] == s.shadow.partitions[i];
      }
    }
  }

  /** `qfu_handle_blk` for data block `blk`: an invalid block is
      errADDRESS; with authentication, a block whose digest does not match
      sanitizes BL-Data and is errFILE; otherwise the first data block
      marks the partition inconsistent and the block is written. None when
      the sanitize halts. */
  function HandleBlk(e: Env, s: Store, q: QfuState, blk: nat, data: Bytes): (r: Option<(Store, Status)>)
    requires Ready(e, s, q) && blk >= 1 && |data| <= Config.BlockSize(e.b)
    ensures r.Some? ==> StoreShape(e.b, r.value.0)
  {
    if !BlockValid(q.hdr, blk, |data|) then Some((s, ErrAddress))
    else if e.b.auth && !BlockHashOk(e, q.hdr, blk, data) then
      var s1 :- Sanitize(e.b, s, e.iv);
      Some((s1, ErrFile))
    else
      var s1 := if blk == 1 then PrepareBlData(e, s, q) else s;
      var app := WritePages(e.b, Part(e, s, q), blk, BlockBuffer(e.b, data), 0, s1.app);
      Some((s1.(app := app), Ok))
  }

  /** The block passes the checks of `qfu_handle_blk`. */
  predicate BlockAccepted(e: Env, q: QfuState, blk: nat, data: Bytes)
    requires F.HDR_SIZE <= |q.hdr| && blk >= 1
  {
    BlockValid(q.hdr, blk, |data|) && (e.b.auth ==> BlockHashOk(e, q.hdr, blk, data))
  }

  /** A refused block is errADDRESS with nothing changed when it is not one
      the header announces, and otherwise (a digest mismatch) errFILE after
      a sanitize, which may halt. */
  lemma HandleBlkRefused(e: Env, s: Store, q: QfuState, blk: nat, data: Bytes)
    requires Ready(e, s, q) && blk >= 1 && |data| <= Config.BlockSize(e.b)
    requires !BlockAccepted(e, q, blk, data)
    ensures var r := HandleBlk(e, s, q, blk, data);
      && (!BlockValid(q.hdr, blk, |data|) ==> r == Some((s, ErrAddress)))
      && (BlockValid(q.hdr, blk, |data|) ==>
            && (r.None? <==> Compromised(e.b, s))
            && (r.Some? ==> r.value == (Sanitize(e.b, s, e.iv).value, ErrFile)))
  {
    SanitizeHaltsIff(e.b, s, e.iv);
  }

  /** An accepted block is Ok. It programs the partition's pages from
      `first_page + (blk - 1) * QFU_BLOCK_SIZE_PAGES` on with the block,
      padded with 0xFF, and no other page; BL-Data stays as it was, except
      that block 1 first marks the partition inconsistent. */
  lemma HandleBlkWrites(e: Env, s: Store, q: QfuState, blk: nat, data: Bytes)
    requires Ready(e, s, q) && blk >= 1 && |data| <= Config.BlockSize(e.b)
    requires BlockAccepted(e, q, blk, data)
    ensures HandleBlk(e, s, q, blk, data).Some?
    ensures var (t, status) := HandleBlk(e, s, q, blk, data).value;
      var p, buf := Part(e, s, q), BlockBuffer(e.b, data);
      && status == Ok
      && t.app.Keys == s.app.Keys
      && (forall k: (nat, nat) :: k in s.app && InBlock(e.b, p, blk, k) ==>
            t.app[k] == PageOfBlock(e.b, buf, k.1 - BlockFirstPage(e.b, p, blk)))
      && (forall k: (nat, nat) :: k in s.app && !InBlock(e.b, p, blk, k) ==> t.app[k] == s.app[k])
      && (blk != 1 ==> t.(app := s.app) == s)
      && (blk == 1 ==> t.(app := s.app) == PrepareBlData(e, s, q))
  {
    AcceptedBlockStore(e, s, q, blk, data);
    WriteBlockEffect(e.b, Part(e, s, q), blk, BlockBuffer(e.b, data), s.app);
  }

  /** The store an accepted block leaves: BL-Data prepared for block 1,
      then the block's pages written. */
  lemma AcceptedBlockStore(e: Env, s: Store, q: QfuState, blk: nat, data: Bytes)
    requires Ready(e, s, q) && blk >= 1 && |data| <= Config.BlockSize(e.b)
    requires BlockAccepted(e, q, blk, data)
    ensures var s1 := if blk == 1 then PrepareBlData(e, s, q) else s;
      var app := WritePages(e.b, Part(e, s, q), blk, BlockBuffer(e.b, data), 0, s.app);
      HandleBlk(e, s, q, blk, data) == Some((s1.(app := app), Ok))
  {
  }

  /** Every digest a valid data block of an accepted header is checked
      against lies inside the header buffer. */
  lemma BlockDigestInBuffer(e: Env, p: Partition, hdr: Bytes, blk: nat, len: nat)
    requires Valid(e) && |hdr| == Config.HdrBufSize(e.b)
    requires p.numPages <= e.b.partitionMaxPages
    requires FitsPartition(e.b, p, hdr)
    requires blk >= 1 && BlockValid(hdr, blk, len)
    ensures F.Hash(hdr, blk - 1).Some?
  {
    DigestsInBuffer(e, p, hdr);
  }

  /* ---------------------------------------------------------------------- */
  /* qfu_dnl_process_block                                                  */

  /** `qfu_dnl_process_block`: block 0 is the header, every later block a
      data block. */
  function ProcessBlock(e: Env, s: Store, q: QfuState, blk: nat, data: Bytes): (r: Option<(Store, QfuState)>)
    requires Ready(e, s, q) && |data| <= Config.BlockSize(e.b)
    ensures r.Some? ==> StoreShape(e.b, r.value.0) && Fits(e, r.value.1)
    ensures r.Some? ==> r.value.1.alt == q.alt
    ensures blk == 0 ==> r == Some((s, HandleHdr(e, s, q, data)))
    ensures blk > 0 && r.Some? ==> r.value.1.hdr == q.hdr
  {
    if blk == 0 then Some((s, HandleHdr(e, s, q, data)))
    else
      var res :- HandleBlk(e, s, q, blk, data);
      Some((res.0, q.(status := res.1)))
  }

  /** Processing a block keeps BL-Data synced: a header leaves it alone,
      block 1 writes it back, a refused digest sanitizes it and the flash
      writes touch application pages only. */
  lemma ProcessBlockSynced(e: Env, s: Store, q: QfuState, blk: nat, data: Bytes)
    requires Ready(e, s, q) && |data| <= Config.BlockSize(e.b)
    requires Synced(e.b, s)
    requires ProcessBlock(e, s, q, blk, data).Some?
    ensures Synced(e.b, ProcessBlock(e, s, q, blk, data).value.0)
  {
    if blk > 0 {
      if BlockAccepted(e, q, blk, data) {
        HandleBlkWrites(e, s, q, blk, data);
      } else {
        HandleBlkRefused(e, s, q, blk, data);
        if BlockValid(q.hdr, blk, |data|) {
          SanitizeSynced(e.b, s, e.iv);
        }
      }
    }
  }

  /** Processing a block on a synced section keeps every partition's
      target index in range. */
  lemma ProcessBlockIndexed(e: Env, s: Store, q: QfuState, blk: nat, data: Bytes)
    requires Ready(e, s, q) && |data| <= Config.BlockSize(e.b)
    requires Synced(e.b, s)
    requires ProcessBlock(e, s, q, blk, data).Some?
    ensures Indexed(ProcessBlock(e, s, q, blk, data).value.0.shadow)
  {
    if blk > 0 {
      if BlockAccepted(e, q, blk, data) {
        AcceptedBlockStore(e, s, q, blk, data);
        if blk == 1 {
          PreparedIndexed(e, s, q);
        }
      } else {
        HandleBlkRefused(e, s, q, blk, data);
        if BlockValid(q.hdr, blk, |data|) {
          SyncedStoredIndexed(e.b, s);
          SanitizeIndexed(e.b, s, e.iv);
        }
      }
    }
  }

  /** Only a data block whose digest does not match sanitizes, so a block
      halts the handler only on a compromised section. */
  lemma ProcessBlockHalts(e: Env, s: Store, q: QfuState, blk: nat, data: Bytes)
    requires Ready(e, s, q) && |data| <= Config.BlockSize(e.b)
    ensures ProcessBlock(e, s, q, blk, data).None? ==> Compromised(e.b, s)
  {
    if blk > 0 {
      if BlockAccepted(e, q, blk, data) {
        HandleBlkWrites(e, s, q, blk, data);
      } else {
        HandleBlkRefused(e, s, q, blk, data);
      }
    }
  }

  /** Once the first data block is accepted the partition stays marked
      inconsistent while the later blocks are written, so an update cut
      short is erased by the next sanitize. */
  lemma ProcessBlockMarks(e: Env, s: Store, q: QfuState, blk: nat, data: Bytes)
    requires Ready(e, s, q) && |data| <= Config.BlockSize(e.b)
    requires blk >= 1 && BlockAccepted(e, q, blk, data)
    requires blk == 1 || Part(e, s, q).isConsistent == 0
    ensures ProcessBlock(e, s, q, blk, data).Some?
    ensures var (t, r) := ProcessBlock(e, s, q, blk, data).value;
      && r.status == Ok
      && t.shadow.partitions[q.alt - 1].isConsistent == 0
  {
    AcceptedBlockStore(e, s, q, blk, data);
  }

  /* ---------------------------------------------------------------------- */
  /* qfu_dnl_finalize_transfer                                              */

  /** The record once a transfer completed: the partition consistent with
      the image's version, and its target pointing at it, with the image's
      svn under authentication. */
  function Finalized(e: Env, s: Store, q: QfuState): (r: BlData)
    requires Ready(e, s, q)
    ensures WellFormed(e.b, r) && Indexed(r)
  {
    var p := Part(e, s, q);
    var p1 := p.(isConsistent := 1, appVersion := F.Version(q.hdr));
    PartitionInRangeFields(p);
    PartitionInRangeFields(p1);
    var d1 := SetPartition(e.b, s.shadow, q.alt - 1, p1);
    var t := d1.targets[p.targetIdx];
    var t1 := Target(q.alt - 1, if e.b.auth then F.Svn(q.hdr) else t.svn);
    TargetInRangeFields(t);
    TargetInRangeFields(t1);
    SetTarget(e.b, d1, p.targetIdx, t1)
  }

  /** `qfu_dnl_finalize_transfer`: the closing block number must equal the
      header's `n_blocks`; if it does, BL-Data records the new image and is
      written back (the handler agrees), otherwise BL-Data is sanitized
      (the handler refuses). None when the sanitize halts. */
  function FinalizeTransfer(e: Env, s: Store, q: QfuState, blockNum: nat): (r: Option<(Store, bool)>)
    requires Ready(e, s, q)
    ensures r.Some? ==> StoreShape(e.b, r.value.0)
  {
    if blockNum != F.NBlocks(q.hdr) then
      var s1 :- Sanitize(e.b, s, e.iv);
      Some((s1, false))
    else Some((Writeback(e.b, s.(shadow := Finalized(e, s, q))), true))
  }

  /** What the finalized record holds: the partition consistent with the
      image's version, the target pointing at it (with the image's svn
      under authentication), and everything else as before. */
  lemma FinalizedFields(e: Env, s: Store, q: QfuState)
    requires Ready(e, s, q)
    ensures var p, d := Part(e, s, q), Finalized(e, s, q);
      && d.fwKey == s.shadow.fwKey && d.rvKey == s.shadow.rvKey && d.head == s.shadow.head
      && d.partitions == s.shadow.partitions[q.alt - 1 := p.(isConsistent := 1, appVersion := F.Version(q.hdr))]
      && |d.targets| == |s.shadow.targets|
      && d.targets[p.targetIdx].activePartitionIdx == q.alt - 1
      && d.targets[p.targetIdx].svn == (if e.b.auth then F.Svn(q.hdr) else s.shadow.targets[p.targetIdx].svn)
      && (forall i :: 0 <= i < |d.targets| && i != p.targetIdx ==> d.targets[i] == s.shadow.targets[i])
  {
  }

  /** A closing block number other than `n_blocks` is refused after a
      sanitize, which halts only on a compromised section. */
  lemma FinalizeRefused(e: Env, s: Store, q: QfuState, blockNum: nat)
    requires Ready(e, s, q) && blockNum != F.NBlocks(q.hdr)
    ensures var r := FinalizeTransfer(e, s, q, blockNum);
      && (r.None? <==> Compromised(e.b, s))
      && (r.Some? ==> !r.value.1 && r.value.0 == Sanitize(e.b, s, e.iv).value && Synced(e.b, r.value.0))
      && (r.Some? && StoredIndexed(e.b, s) ==> Indexed(r.value.0.shadow))
  {
    SanitizeHaltsIff(e.b, s, e.iv);
    if !Compromised(e.b, s) {
      SanitizeSynced(e.b, s, e.iv);
      SanitizeIndexed(e.b, s, e.iv);
    }
  }

  /** The closing block number `n_blocks` is agreed to: both BL-Data copies
      then hold the finalized record (up to its crc) and the application
      flash is untouched. */
  lemma FinalizeAgreed(e: Env, s: Store, q: QfuState)
    requires Ready(e, s, q)
    ensures var r := FinalizeTransfer(e, s, q, F.NBlocks(q.hdr));
      && r.Some? && r.value.1
      && Synced(e.b, r.value.0)
      && Indexed(r.value.0.shadow)
      && r.value.0.app == s.app
      && r.value.0.shadow == Finalized(e, s, q).(crc := r.value.0.shadow.crc)
  {
    WritebackSynced(e.b, s.(shadow := Finalized(e, s, q)));
  }

  /** An update that completed survives a reset: when every other partition
      was consistent, the next sanitize leaves BL-Data and the application
      flash as the finalize left them. */
  lemma FinalizeSurvivesSanitize(e: Env, s: Store, q: QfuState)
    requires Ready(e, s, q)
    requires forall i :: 0 <= i < |s.shadow.partitions| && i != q.alt - 1 ==> s.shadow.partitions[i].isConsistent != 0
    ensures var t := FinalizeTransfer(e, s, q, F.NBlocks(q.hdr)).value.0;
      Sanitize(e.b, t, e.iv) == Some(t)
  {
    FinalizeAgreed(e, s, q);
    FinalizedFields(e, s, q);
    var t := FinalizeTransfer(e, s, q, F.NBlocks(q.hdr)).value.0;
    var ps := t.shadow.partitions;
    assert ps == Finalized(e, s, q).partitions;
    assert forall i :: 0 <= i < |ps| ==> ps[i].isConsistent != 0 by {
      forall i | 0 <= i < |ps|
        ensures ps[i].isConsistent != 0
      {
        if i != q.alt - 1 {
          assert ps[i] == s.shadow.partitions[i];
        }
      }
    }
    SanitizeStable(e.b, t, e.iv);
  }

  /* ---------------------------------------------------------------------- */
  /* qfu_init, qfu_get_status, qfu_clear_status, qfu_upl_fill_block,        */
  /* qfu_abort_transfer                                                     */

  /** `qfu_init`: select the partition, clear the status and sanitize
      BL-Data. The header buffer keeps its bytes. */
  function InitHandler(e: Env, s: Store, q: QfuState, alt: nat): (r: Option<(Store, QfuState)>)
    requires Valid(e) && StoreShape(e.b, s) && |q.hdr| == Config.HdrBufSize(e.b)
    requires 1 <= alt <= Config.NumPartitions(e.b) && alt < 0x100
    ensures r.None? <==> Compromised(e.b, s)
    ensures r.Some? ==> r.value.1 == QfuState(Ok, alt, q.hdr) && Fits(e, r.value.1)
    ensures r.Some? ==> StoreShape(e.b, r.value.0) && Synced(e.b, r.value.0)
    ensures r.Some? && StoredIndexed(e.b, s) ==> Indexed(r.value.0.shadow)
  {
    SanitizeHaltsIff(e.b, s, e.iv);
    var s1 :- Sanitize(e.b, s, e.iv);
    SanitizeSynced(e.b, s, e.iv);
    SanitizeIndexed(e.b, s, e.iv);
    Some((s1, QfuState(Ok, alt, q.hdr)))
  }

  /** `qfu_get_status`: the status of the last block, and no poll timeout
      since blocks are written as they arrive. */
  function GetStatus(q: QfuState): (r: (Status, nat))
    ensures r.1 == 0
  {
    (q.status, 0)
  }

  /** `qfu_clear_status`: sanitize BL-Data (erasing a partition an aborted
      update left inconsistent) and reset the status. */
  function ClearStatus(e: Env, s: Store, q: QfuState): (r: Option<(Store, QfuState)>)
    requires Ready(e, s, q)
    ensures r.None? <==> Compromised(e.b, s)
    ensures r.Some? ==> r.value.1 == q.(status := Ok) && StoreShape(e.b, r.value.0) && Synced(e.b, r.value.0)
    ensures r.Some? ==> forall i :: 0 <= i < |r.value.0.shadow.partitions| ==> r.value.0.shadow.partitions[i].isConsistent != 0
    ensures r.Some? && StoredIndexed(e.b, s) ==> Indexed(r.value.0.shadow)
  {
    SanitizeHaltsIff(e.b, s, e.iv);
    var s1 :- Sanitize(e.b, s, e.iv);
    SanitizeSynced(e.b, s, e.iv);
    SanitizeIndexed(e.b, s, e.iv);
    Some((s1, q.(status := Ok)))
  }

  /** `qfu_upl_fill_block`: firmware cannot be read back; every upload is
      empty. */
  function FillUploadBlock(q: QfuState, blk: nat, reqLen: nat): (r: (QfuState, nat))
    ensures r == (q, 0)
  {
    (q, 0)
  }

  /** `qfu_abort_transfer`: sanitize BL-Data; the status is kept. */
  function AbortTransfer(e: Env, s: Store, q: QfuState): (r: Option<(Store, QfuState)>)
    requires Ready(e, s, q)
    ensures r.None? <==> Compromised(e.b, s)
    ensures r.Some? ==> r.value.1 == q && StoreShape(e.b, r.value.0) && Synced(e.b, r.value.0)
    ensures r.Some? ==> forall i :: 0 <= i < |r.value.0.shadow.partitions| ==> r.value.0.shadow.partitions[i].isConsistent != 0
    ensures r.Some? && StoredIndexed(e.b, s) ==> Indexed(r.value.0.shadow)
  {
    SanitizeHaltsIff(e.b, s, e.iv);
    var s1 :- Sanitize(e.b, s, e.iv);
    SanitizeSynced(e.b, s, e.iv);
    SanitizeIndexed(e.b, s, e.iv);
    Some((s1, q))
  }
}
