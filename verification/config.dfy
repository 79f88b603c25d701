/** The two system-on-chip families the firmware manager and the host tools
    are built for. */
module Soc {
  datatype Soc = QuarkSe | QuarkD2000
}

/** Build-time configuration of the firmware manager
    (fw-manager/fw-manager_config.h, fw-manager/bl_data.h,
    fw-manager/qfu/qfu_hmac.h), together with the platform constants those
    headers take from SoC headers that are not part of this model. */
module Config {
  import opened Soc

  datatype Build = Build(
    soc: Soc,
    /** ENABLE_FIRMWARE_MANAGER_AUTH */
    auth: bool,
    /** FM_CFG_ENFORCE_VID, FM_CFG_ENFORCE_APP_PID, FM_CFG_ENFORCE_DFU_PID */
    enforceVid: bool,
    enforceAppPid: bool,
    enforceDfuPid: bool,
    /** QM_FLASH_PAGE_SIZE_BYTES */
    pageSize: nat,
    /** BL_BOOT_TARGETS_NUM */
    numTargets: nat,
    /** BL_CONFIG_DUAL_BANK: two partitions per target instead of one */
    dualBank: bool,
    /** BL_PARTITION_MAX_PAGES */
    partitionMaxPages: nat,
    /** QM_FPR_GRANULARITY: BL-Data bytes before the partition table */
    fprGranularity: nat
  )

  /** DFU_CFG_VID and DFU_CFG_PID. */
  const DFU_CFG_VID: nat := 0x8086
  const DFU_CFG_PID: nat := 0x00DA

  /** DFU_CFG_PID_DFU: the product id in DFU mode. */
  function DfuPidDfu(b: Build): nat {
    if b.soc == QuarkSe then 0xC100 else 0xD200
  }

  /** QFU_BLOCK_SIZE_PAGES */
  function PagesPerBlock(b: Build): nat {
    if b.soc == QuarkSe then 2 else 1
  }

  /** QFU_BLOCK_SIZE: the only block size the device accepts. */
  function BlockSize(b: Build): nat {
    b.pageSize * PagesPerBlock(b)
  }

  /** BL_FLASH_PARTITIONS_NUM */
  function NumPartitions(b: Build): nat {
    b.numTargets * (if b.dualBank then 2 else 1)
  }

  /** DFU_NUM_ALT_SETTINGS: alternate setting 0 is QFM, 1..N the partitions. */
  function NumAltSettings(b: Build): nat {
    1 + NumPartitions(b)
  }

  /** HDR_BUF_SIZE: the 24-byte base header plus the largest HMAC extended
      header (svn, one digest per possible data block, final HMAC). */
  function HdrBufSize(b: Build): nat {
    24 + 4 + 32 + 32 * (b.partitionMaxPages / PagesPerBlock(b))
  }

  /** sizeof(bl_data_t): the FPR-aligned head (trim codes, ROM version,
      gap), 7 words per partition, 2 words per target, two 32-byte keys and
      the crc word. */
  function BlDataSize(b: Build): nat {
    b.fprGranularity + 28 * NumPartitions(b) + 8 * b.numTargets + 64 + 4
  }

  /** The build constraints the C code relies on: a header block holds the
      whole header buffer, a block size fits the 16-bit header field, and a
      BL-Data copy fits in one flash page. */
  predicate WellFormed(b: Build) {
    && b.pageSize > 0
    && b.numTargets > 0
    && BlockSize(b) < 0x1_0000
    && HdrBufSize(b) <= BlockSize(b)
    && BlDataSize(b) <= b.pageSize
    && b.pageSize % 4 == 0
  }
}
