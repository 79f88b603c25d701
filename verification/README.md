# QFU images and the Quark firmware manager, in Dafny

This project models the two ends of the QMSI bootloader's firmware-update path
and proves properties of the model.

- **The host builder.** The `qmfmlib` Python library builds QFU images. A QFU
  image is a 20-byte base header (`"QFUH"` and seven little-endian fields),
  then an extended header, then zero padding to a block boundary, then the
  raw application image. The extended header is one of three kinds:
  - none;
  - a SHA-256 of the image;
  - HMAC-SHA-256. This kind holds a security version number (svn), one
    SHA-256 per data block and an HMAC over everything before it.

  The library also reads build values from C `#define` lines and lets
  command-line options override them.
- **The device firmware manager.** It is made of several parts:
  - the DFU core, a USB DFU 1.1 state machine that also requires blocks to
    arrive in sequence;
  - the QFU handler, which checks an image header, writes the data blocks to
    a flash partition and records the result;
  - the QFM handler, which answers system-information, application-erase and
    key-update requests;
  - the BL-Data code, which keeps the bootloader's metadata in a main and a
    backup flash page, protects each with a CRC-16 and repairs them at boot
    and after every failed update.

Everything is written as immutable datatypes and pure functions.

- SHA-256 and HMAC-SHA-256 are function parameters of the model (`sha`, and
  `hmac` with the key first).
- Flash is page contents: BL-Data as two byte pages, the application flash as
  a map from (controller, page) to bytes.
- The build options (`ENABLE_FIRMWARE_MANAGER_AUTH`, the `FM_CFG_ENFORCE_*`
  switches, page size, pages per block, target count, dual bank) form a
  `Config.Build` record.
- The reset vector's call to `bl_data_sanitize` can stop the device for good
  (`bl_loop_if_not_blank`). Every operation that may reach it returns an
  `Option`, and `None` means the device stopped.

The modules follow the source files:

| module | models |
|---|---|
| `Wrappers`, `Bytes` | Option/Result; bytes and little-endian fields |
| `FwManagerUtils`, `CrcRegister` | `fw-manager/fw-manager_utils.c` |
| `Soc`, `Config`, `Platform` | build configuration and the hash parameters |
| `DefineParser`, `QfuHost` | `tools/sysupdate/qmfmlib/qfu.py` |
| `QfuFormat` | `fw-manager/qfu/qfu_format.h` |
| `BlData` | `fw-manager/bl_data.c` and the `bl_data_t` layout |
| `Dfu`, `DfuCore` | `fw-manager/dfu/dfu.h`, `fw-manager/dfu/core/dfu_core.c` |
| `Qfu` | `fw-manager/qfu/qfu.c`, `fw-manager/qfu/qfu_hmac.c` |
| `Qfm` | `fw-manager/qfm/qfm.c` |
| `Device` | the DFU core driving both handlers over one BL-Data store |
| `EndToEnd` | host-built images as the device reads and checks them |

### Where the code and the written design disagree

In each case below the model follows the code. Two defects of the host tool,
listed under Findings, are modelled twice: once as written and once
corrected. `QfuHost.MakeAsWritten` and `DefineParser.DefinesAsWritten` follow
the code, and `QfuHost.Configure` reads configuration files with the code's
character class. `QfuHost.Make` and `DefineParser.ParseLine` are the corrected
definitions. `QfuHost.MakeAgreesForWideBlocks` shows the two `make`s agree for
every block size that is a multiple of 32.

- **Extension choice.** The design says a signing key takes precedence over
  the SHA-256 request. `make` tests `add_sha256` first, so SHA-256 wins
  (`QfuHost.ChooseExt`).
- **Empty key.** The design says an empty signing key makes assembly fail.
  In `make`, `elif key:` treats an empty key as false, so an empty key
  silently selects no extension (`QfuHost.ChooseExt`).
- **Padding.** The design says padding is shorter than a block. The code pads
  by 1 to `block_size` bytes (`QfuHost.MakeAsWritten`; see Findings).
- **CRC initial value.** The declaration comment of `fm_crc16_ccitt` says the
  register starts at 0xffff. The code starts it at 0, which gives
  CRC-16/XMODEM (`FwManagerUtils.XmodemCheckValue`,
  `FwManagerUtils.InitFfffCheckValue`).

## Model

| member | source | states |
|---|---|---|
| FwManagerUtils.Crc16 | fw-manager/fw-manager_utils.c:35-47 | the CRC equals an independent bitwise CRC-16 (MSB first, polynomial 0x1021) started from 0, and fits 16 bits; the empty input gives 0 |
| FwManagerUtils.StepIsBitwise | fw-manager/fw-manager_utils.c:39-44 | the code's shift-and-xor byte update equals eight textbook shift/xor steps with polynomial 0x1021 and keeps the register within 16 bits |
| FwManagerUtils.CrcAppend | fw-manager/fw-manager_utils.c:35-47 | the CRC is a left fold: the CRC of a ++ b continues from the register value after a |
| FwManagerUtils.XmodemCheckValue | fw-manager/fw-manager_utils.c:35-47 | "123456789" gives 0x31C3, the CRC-16/XMODEM check value |
| FwManagerUtils.InitFfffCheckValue | fw-manager/fw-manager_utils.h:40-54 | with the register started at 0xFFFF, as the declaration comment says, the same input would give 0x29B1, so the code does not do what its comment says |
| FwManagerUtils.FmCrc16Ccitt | fw-manager/fw-manager_utils.c:35-47 | the 32-bit register loop, truncated to 16 bits on return, computes the bitwise CRC-16/XMODEM of the data |
| FwManagerUtils.FmHmacIsDefaultKey | fw-manager/fw-manager_utils.c:51-66 | the word-by-word scan reports "default" exactly when all 32 key bytes are zero |
| Dfu.StatusCodeRoundTrip | fw-manager/dfu/dfu.h:76-123 | every status has its own bStatus code, the valid codes are exactly 0..15, and decoding a code gives back its status |
| Dfu.StateCodeInjective | fw-manager/dfu/dfu.h:129-179 | two states have the same bState code only if they are the same state |
| QfuFormat.MagicIsQfuh | fw-manager/qfu/qfu_format.h:37-38 | QFU_HDR_MAGIC is the bytes "QFUH" read as a little-endian word |
| QfuFormat.Hash | fw-manager/qfu/qfu_format.h:93-104 | `hashes[i]` exists exactly when its 32 bytes lie in the header bytes at hand, and is those bytes at offset 28 + 32i |
| DefineParser.ParseLine | tools/sysupdate/qmfmlib/qfu.py:74-91 | corrected definition: with the hex class `[0-9a-fA-F]`, reading a line never raises, and a define it finds has a non-empty name and a non-negative value |
| DefineParser.DecimalLineRoundTrip | tools/sysupdate/qmfmlib/qfu.py:74-91 | `#define NAME <decimal>` reads back as that name and number |
| DefineParser.HexLineRoundTrip | tools/sysupdate/qmfmlib/qfu.py:74-91 | `#define NAME 0x<hex>` reads back as that name and number; the hex pattern is tried before the decimal one |
| DefineParser.ParenthesisedHexLineRoundTrip | tools/sysupdate/qmfmlib/qfu.py:74-91 | `#define NAME (0x<hex>)` reads back the same way |
| DefineParser.DefinesLastWins | tools/sysupdate/qmfmlib/qfu.py:93-96 | a macro's value in the table is the one from the last line that defines it |
| DefineParser.DefinesOnlyFromLines | tools/sysupdate/qmfmlib/qfu.py:93-96 | every macro in the table comes from some line that defines it with that value |
| DefineParser.CommaListLineAsWritten | tools/sysupdate/qmfmlib/qfu.py:77-78 | as written, the comma inside `[0-9,a-f,A-F]` makes `#define PAIR 0x1,0x2` capture "1,0", and `int()` raises on it |
| DefineParser.CommaListLineCorrected | tools/sysupdate/qmfmlib/qfu.py:77-78 | with the class `[0-9a-fA-F]` the same line defines PAIR as 1 |
| DefineParser.ParseLineAsWrittenAgrees | tools/sysupdate/qmfmlib/qfu.py:74-91 | a line the code's class reads without raising gives the same define as the corrected class; a line it raises on has a comma in the captured digits |
| DefineParser.TableCheckedAgrees | tools/sysupdate/qmfmlib/qfu.py:93-96 | reading lines with a parser that may raise succeeds exactly when every line is accepted, and then gives the same table as the non-raising reader |
| DefineParser.DefinesAsWritten | tools/sysupdate/qmfmlib/qfu.py:93-96 | as written: the file's table, or the error of a line whose hex digits `int()` cannot read |
| DefineParser.DefinesAsWrittenAgrees | tools/sysupdate/qmfmlib/qfu.py:93-96 | the file parses exactly when no line raises, and then its table is the corrected reader's table |
| DefineParser.DefinesAsWrittenFirstError | tools/sysupdate/qmfmlib/qfu.py:93-96 | a failed file reports the error of its first refused line, and every earlier line was accepted |
| QfuHost.GetBaseHeader | tools/sysupdate/qmfmlib/qfu.py:386-403 | packing fails (struct.error) exactly when a field does not fit HHHHIHH; otherwise it gives 20 bytes beginning with "QFUH" |
| QfuHost.EncodeLayout | tools/sysupdate/qmfmlib/qfu.py:386-403 | magic at 0, vid 4, pid 6, pid_dfu 8, partition 10, version 12 (32-bit), block size 16, block count 18, each little-endian |
| QfuHost.SetFromData | tools/sysupdate/qmfmlib/qfu.py:362-384 | a missing "QFUH" prefix is reported first, then a length other than 20; a success keeps the reader's svn |
| QfuHost.DecodeEncode | tools/sysupdate/qmfmlib/qfu.py:362-403 | `set_from_data` of a packed header gives back its seven fields (round trip) |
| QfuHost.EncodeDecode | tools/sysupdate/qmfmlib/qfu.py:362-403 | packing the fields read from accepted bytes gives back the same bytes (the other round trip) |
| QfuHost.ChooseExt | tools/sysupdate/qmfmlib/qfu.py:116-120 | SHA-256 exactly when requested; HMAC exactly when not, with a non-empty key, which it carries; none otherwise |
| QfuHost.BlockDigestAt | tools/sysupdate/qmfmlib/qfu.py:198-230 | digest i is the SHA-256 of bytes i·bs up to i·bs + bs, cut at the end of the data, and covers at least one byte |
| QfuHost.BlockDigestsLast | tools/sysupdate/qmfmlib/qfu.py:198-230 | the last digest covers the rest after the full blocks; when bs divides the length there are exactly len/bs digests and no short tail |
| QfuHost.ComputeBlocks | tools/sysupdate/qmfmlib/qfu.py:198-230 | the loop over full blocks plus the tail step yields the concatenation of exactly ceil(len/bs) block digests in order |
| QfuHost.ExtCompute | tools/sysupdate/qmfmlib/qfu.py:140-258 | `compute()` fails exactly on empty data (SHA-256, HMAC) or a missing key or an svn outside 32 bits (HMAC); output starts with type and zero reserved field and has length `size()`; the SHA-256 payload is the image digest |
| QfuHost.HmacLayout | tools/sysupdate/qmfmlib/qfu.py:232-258 | the HMAC extension is 8 + 32n + 32 bytes: svn at 4, the n block digests at 8, and last the HMAC of base header ++ everything before it |
| QfuHost.HmacDigestAt | tools/sysupdate/qmfmlib/qfu.py:198-252 | the digest at offset 8 + 32i is that of data block i |
| QfuHost.UnpaddedHeader | tools/sysupdate/qmfmlib/qfu.py:405-415 | the header before padding is the packed base header and the extension; a field out of range is reported before any extension error |
| QfuHost.PadAsWritten | tools/sysupdate/qmfmlib/qfu.py:417 | the code pads by 1 to bs bytes, always ending on a block boundary |
| QfuHost.Pad | tools/sysupdate/qmfmlib/qfu.py:122-125 | the corrected padding is fewer than bs bytes and brings the length to CeilDiv(len, bs)·bs, as `header_blocks` counts |
| QfuHost.PadAsWrittenIff | tools/sysupdate/qmfmlib/qfu.py:417 | the two paddings agree exactly when the header is not already block-aligned; otherwise the code adds one whole extra block |
| QfuHost.PackedQfuHeaderAsWritten | tools/sysupdate/qmfmlib/qfu.py:405-418 | `packed_qfu_header` as written fails exactly when the unpadded header fails or the block size is 0 |
| QfuHost.PackedAsWrittenLayout | tools/sysupdate/qmfmlib/qfu.py:405-418 | as written: unpadded header then 1 to bs zero bytes, a multiple of bs |
| QfuHost.PackedQfuHeader | tools/sysupdate/qmfmlib/qfu.py:405-418 | the corrected packing fails on the same inputs |
| QfuHost.PackedLayout | tools/sysupdate/qmfmlib/qfu.py:405-418 | corrected: unpadded header then fewer than bs zero bytes, exactly CeilDiv(len, bs) blocks |
| QfuHost.PaddingExtraBlock | tools/sysupdate/qmfmlib/qfu.py:417 | block size 4, no extension: 24 header bytes are 6 blocks and `make` counts 6, yet the code emits 28 bytes |
| QfuHost.Make | tools/sysupdate/qmfmlib/qfu.py:105-131 | corrected `make` (padding shorter than a block): block size None or 0 fails in the block arithmetic; a success changes only `num_blocks` |
| QfuHost.MakeAsWritten | tools/sysupdate/qmfmlib/qfu.py:105-131 | `make` as written, padding by 1 to bs bytes: block size None or 0 fails; a success changes only `num_blocks` |
| QfuHost.PackedAgrees | tools/sysupdate/qmfmlib/qfu.py:405-418 | the two packings fail together, and are equal when the unpadded header is not a multiple of bs |
| QfuHost.MakeAsWrittenAgrees | tools/sysupdate/qmfmlib/qfu.py:105-131 | the code's `make` succeeds exactly when the corrected one does, and gives the same image when the header is not block-aligned |
| QfuHost.MakeAsWrittenExtraBlock | tools/sysupdate/qmfmlib/qfu.py:122-131 | with an aligned header the code's image is the corrected image with one extra block of zeros after the header, while `num_blocks` stays the same |
| QfuHost.MakeAgreesForWideBlocks | tools/sysupdate/qmfmlib/qfu.py:105-131 | for every block size that is a multiple of 32 the code's `make` equals the corrected `make` |
| QfuHost.MakeAsWrittenCounterexample | tools/sysupdate/qmfmlib/qfu.py:417 | block size 4, no extension, one data byte: both `make`s set `num_blocks` to 7; the corrected image is 25 bytes, the code's is 29, which needs 8 blocks |
| QfuHost.MakeSucceedsIff | tools/sysupdate/qmfmlib/qfu.py:105-131 | with a positive block size, `make` succeeds exactly when the fields with the new block count pack, a SHA-256/HMAC extension has data, and an HMAC svn fits 32 bits |
| QfuHost.MakeLayout | tools/sysupdate/qmfmlib/qfu.py:105-131 | corrected `make`: the image is the base header of the updated header, the extension, zeros to hb·bs, then the raw image; `num_blocks` = ceil(len/bs) + hb and counts exactly the image's blocks |
| QfuHost.MakeHeaderRoundTrip | tools/sysupdate/qmfmlib/qfu.py:105-131 | reading the first 20 bytes of a built image back gives the header `make` returned |
| QfuHost.OverwriteConfigParameters | tools/sysupdate/qmfmlib/qfu.py:312-336 | a field changes only if its option was given; the block size is kept if set, else 4096 on Quark SE and 2048 otherwise |
| QfuHost.OverwriteIdempotent | tools/sysupdate/qmfmlib/qfu.py:312-336 | applying the same options twice changes nothing more |
| QfuHost.SetFromFile | tools/sysupdate/qmfmlib/qfu.py:338-360 | each of the six macros (vendor id, product id, DFU product id, version, block size, svn) replaces its field when defined and keeps it when absent; partition and block count never come from the file |
| QfuHost.ConfigurePrecedence | tools/sysupdate/qm_make_dfu.py:127-139 | with a file, configuration succeeds exactly when no line raises in the code's reader; then each field comes from the command-line option if given, else the configuration file, else the default; the block size falls back to the SoC default |
| QfuHost.CommaListFileAborts | tools/sysupdate/qm_make_dfu.py:127-139 | a file holding `#define PAIR 0x1,0x2` makes the tool fail with `int()`'s error on "1,0" |
| QfuHost.ConfiguredVersionFromLastLine | tools/sysupdate/qm_make_dfu.py:127-139 | when configuration succeeds without a version option, the version is the one on the last configuration line that defines QFU_VERSION |
| BlData.EncodeLayout | fw-manager/bl_data.h:177-203 | the stored record holds head, partition table, targets, fw key, rv key at their offsets and the crc word after them |
| BlData.DecodeEncode | fw-manager/bl_data.h:177-203 | reading back a stored record gives the record |
| BlData.EncodeDecode | fw-manager/bl_data.h:177-203 | storing a record read from flash gives back the same bytes |
| BlData.PageImageRecord | fw-manager/bl_data.c:112-117 | after `bl_data_copy` writes a page, the page's record is the one written |
| BlData.LoopIfNotBlank | fw-manager/bl_data.c:184-199 | the word walk stops the device exactly when some byte of the section is not 0xFF |
| BlData.InitFields | fw-manager/bl_data.c:92-104 | init replaces trim codes, ROM version and both descriptor lists, and keeps the keys and the alignment gap |
| BlData.WritebackSynced | fw-manager/bl_data.c:279-287 | after a writeback both pages hold the same valid record, which reads back as the shadow; only the crc field changes; application flash is untouched |
| BlData.SanitizePartitionsEffect | fw-manager/bl_data.c:126-174 | afterwards every partition is consistent, only the flag changed, exactly the pages of inconsistent partitions are blank, other pages are untouched, and a writeback is asked for exactly when a partition was fixed |
| BlData.SanitizePartitionsLoop | fw-manager/bl_data.c:156-174 | the partition loop fixes every partition, erases exactly the inconsistent ones and reports true exactly when one was inconsistent |
| BlData.SanitizePartitionsNoop | fw-manager/bl_data.c:156-174 | with every partition consistent nothing changes and no writeback is asked for |
| BlData.RecoverEffect | fw-manager/bl_data.c:207-258 | recovery stops exactly on two bad copies over a non-blank section; otherwise both pages hold one valid record: the main one if valid, else the backup, else a fresh initialisation |
| BlData.SanitizeHaltsIff | fw-manager/bl_data.c:207-271 | `bl_data_sanitize` never returns exactly when both copies fail their CRC and the section is not blank |
| BlData.SanitizeSynced | fw-manager/bl_data.c:207-271 | after a sanitize both pages agree and are valid, the shadow is their record, and every partition is consistent |
| BlData.SanitizeSource | fw-manager/bl_data.c:213-258 | the surviving record is a valid main copy, else a valid backup copy, else the initial values with the keys the shadow held |
| BlData.SanitizeOfSynced | fw-manager/bl_data.c:207-271 | on already synced pages the sanitize only fixes partitions and writes back if it did |
| BlData.SanitizeStable | fw-manager/bl_data.c:207-271 | synced pages with all partitions consistent are left exactly as they are |
| BlData.SanitizeIdempotent | fw-manager/bl_data.c:207-271 | sanitizing twice is the same as sanitizing once |
| BlData.SyncedStoredIndexed | fw-manager/bl_data.c:207-271 | on synced pages, every valid copy names only targets the build has exactly when the shadow does |
| BlData.SanitizeIndexed | fw-manager/bl_data.c:207-271 | when every valid copy on flash names only targets the build has, so does the sanitized record |
| Qfu.HmacCheckCode | fw-manager/qfu/qfu_hmac.c:47-86 | the return code is 0 exactly on success (-1 default key, -2 rollback, memcmp result otherwise) |
| Qfu.CheckHmacHdr | fw-manager/qfu/qfu_hmac.c:47-86 | refused as unprovisioned exactly for an all-zero fw key; as rolled back exactly when the svn is below the target's; accepted exactly when provisioned, not rolled back, and `hashes[n]` is the HMAC of the 28 + 32n header bytes before it |
| Qfu.SvnMonotone | fw-manager/qfu/qfu_hmac.c:63-71 | an equal svn passes the anti-rollback check; the check passes exactly when svn ≥ the target's |
| Qfu.DataBlocks | fw-manager/qfu/qfu.c:225 | `n_blocks - NUM_HDR_BLOCKS` in 16 bits: n - 1, or 65535 for n = 0 |
| Qfu.CheckHdr | fw-manager/qfu/qfu.c:188-242 | the header is accepted exactly when all checks pass; a foreign product is errTARGET; a wrong partition or an image too big for it, errADDRESS; a wrong block size, extension type or HMAC header, errFILE |
| Qfu.HandleHdr | fw-manager/qfu/qfu.c:168-243 | a header block not one QFU block long is errADDRESS; otherwise the first HDR_BUF_SIZE bytes are kept and the status is OK exactly when the header is acceptable |
| Qfu.DigestsInBuffer | fw-manager/qfu/qfu.c:221-232 | for an accepted header the digests and the HMAC lie inside the header buffer |
| Qfu.HandleBlk | fw-manager/qfu/qfu.c:254-331 | a handled block leaves a store of the right shape |
| Qfu.HandleBlkRefused | fw-manager/qfu/qfu.c:266-294 | a block beyond `n_blocks`, too long, or short but not last is errADDRESS with nothing changed; a digest mismatch sanitizes (stopping on a compromised section) and is errFILE |
| Qfu.HandleBlkWrites | fw-manager/qfu/qfu.c:279-331 | an accepted block is OK; the partition pages from first_page + (blk-1)·pages_per_block on get the block padded with 0xFF, no other page changes, and block 1 first marks the partition inconsistent |
| Qfu.BlockDigestInBuffer | fw-manager/qfu/qfu_hmac.c:89-102 | the digest a valid data block is checked against lies inside the header buffer |
| Qfu.ProcessBlock | fw-manager/qfu/qfu.c:392-406 | block 0 is always handled as a header and changes nothing else; later blocks keep the header; the alternate setting never changes |
| Qfu.ProcessBlockSynced | fw-manager/qfu/qfu.c:392-406 | processing a block keeps BL-Data synced |
| Qfu.ProcessBlockIndexed | fw-manager/qfu/qfu.c:392-406 | processing a block keeps every partition naming a target the build has |
| Qfu.Finalized | fw-manager/qfu/qfu.c:432-436 | the finalized record is well formed and every partition still names a target the build has |
| Qfu.ProcessBlockHalts | fw-manager/qfu/qfu.c:280-294 | a block can stop the device only on a compromised section |
| Qfu.ProcessBlockMarks | fw-manager/qfu/qfu.c:295-298 | while accepted data blocks are written, the partition stays marked inconsistent, so an interrupted update is erased at the next sanitize |
| Qfu.PrepareBlData | fw-manager/qfu/qfu.c:152-158 | only the active partition is marked inconsistent; the record is written back to both pages; flash is untouched |
| Qfu.FinalizedFields | fw-manager/qfu/qfu.c:425-441 | the finalized record marks the partition consistent with the image version and points its target at alt - 1 (with the image svn under authentication); nothing else changes |
| Qfu.FinalizeTransfer | fw-manager/qfu/qfu.c:420-442 | a finalize leaves a store of the right shape |
| Qfu.FinalizeRefused | fw-manager/qfu/qfu.c:420-442 | a block count other than `n_blocks` is refused after a sanitize, which stops only on a compromised section |
| Qfu.FinalizeAgreed | fw-manager/qfu/qfu.c:420-442 | the count `n_blocks` is agreed to; both pages hold the finalized record and application flash is untouched |
| Qfu.FinalizeSurvivesSanitize | fw-manager/qfu/qfu.c:420-442 | a completed update survives the next sanitize unchanged when the other partitions were consistent |
| Qfu.InitHandler | fw-manager/qfu/qfu.c:343-351 | selecting a partition resets the status, sanitizes BL-Data and stops only on a compromised section |
| Qfu.GetStatus | fw-manager/qfu/qfu.c:359-368 | the poll timeout is always 0 |
| Qfu.ClearStatus | fw-manager/qfu/qfu.c:376-385 | clearing sanitizes, so every partition is consistent afterwards, and resets the status |
| Qfu.FillUploadBlock | fw-manager/qfu/qfu.c:455-463 | firmware cannot be read back: uploads are empty |
| Qfu.AbortTransfer | fw-manager/qfu/qfu.c:470-474 | abort sanitizes, keeps the status, and leaves every partition consistent |
| Qfm.PrepareSysInfo | fw-manager/qfm/qfm.c:128-147 | the response is pending, with one entry per partition and per target |
| Qfm.SysInfoReport | fw-manager/qfm/qfm.c:128-147 | an application is present exactly when its partition's first word is not 0xFFFFFFFF; versions and active partitions are those BL-Data records |
| Qfm.MarkAll | fw-manager/qfm/qfm.c:157-176 | every partition is marked inconsistent and written back, flash untouched |
| Qfm.AppEraseFlash | fw-manager/qfm/qfm.c:157-176 | an application erase never stops the device, blanks every page of every partition and no other page |
| Qfm.AppEraseRecord | fw-manager/qfm/qfm.c:157-176 | afterwards BL-Data is synced, partitions consistent and otherwise as before, targets and keys unchanged |
| Qfm.AppEraseSynced | fw-manager/qfm/qfm.c:157-176 | an erase leaves BL-Data synced |
| Qfm.UpdateKeyEffect | fw-manager/qfm/qfm.c:180-213 | a key changes exactly when the packet mac equals HMAC(rv_key, HMAC(fw_key, packet without mac)); then only that key changes and both pages hold the record; otherwise errVENDOR and nothing changes |
| Qfm.UpdateKeySynced | fw-manager/qfm/qfm.c:180-213 | a key update keeps BL-Data synced |
| Qfm.ProcessRequestSynced | fw-manager/qfm/qfm.c:225-268 | on synced BL-Data no request stops the device and BL-Data stays synced |
| Qfm.ProcessRequestIndexed | fw-manager/qfm/qfm.c:225-268 | no request makes a partition name a target the build lacks |
| Qfm.ProcessBlockRefused | fw-manager/qfm/qfm.c:225-333 | block ≠ 0, a request shorter than the generic packet, or an unknown type is errTARGET with nothing changed and no response pending |
| Qfm.ProcessBlockPending | fw-manager/qfm/qfm.c:225-333 | every block clears the pending flag, only an erase can stop the device, and a response is pending exactly after a system-information request |
| Qfm.ProcessBlockSynced | fw-manager/qfm/qfm.c:316-333 | a block keeps synced BL-Data synced, never stops the device, and keeps partitions naming targets the build has |
| Qfm.KeyUpdateRequest | fw-manager/qfm/qfm.c:253-264 | key updates exist only with authentication; a fw-key update needs a provisioned rv key; a matching mac replaces exactly that key, anything else is refused with BL-Data unchanged |
| Qfm.EraseThenNoApp | fw-manager/qfm/qfm.c:128-176 | after an erase, system information reports no application in any partition that has pages |
| Qfm.BlankFirstPageNoApp | fw-manager/qfm/qfm.c:128-147 | a partition with a blank first page reports no application |
| Qfm.InitHandler | fw-manager/qfm/qfm.c:280-285 | selecting QFM resets the status and keeps a pending response |
| Qfm.GetStatus | fw-manager/qfm/qfm.c:293-298 | requests finish at once: the last status with no poll timeout |
| Qfm.ClearStatus | fw-manager/qfm/qfm.c:306-309 | clearing resets only the status |
| Qfm.FinalizeTransfer | fw-manager/qfm/qfm.c:344-349 | finalize always agrees and changes nothing |
| Qfm.FillUploadBlock | fw-manager/qfm/qfm.c:370-386 | the response is sent only if pending and the request is at least its size, never more than asked for, and is no longer pending afterwards |
| Qfm.UploadOnce | fw-manager/qfm/qfm.c:370-386 | a response is uploaded at most once |
| Qfm.AbortTransfer | fw-manager/qfm/qfm.c:393-396 | abort drops a pending response |
| DfuCore.SetErr | fw-manager/dfu/core/dfu_core.c:83-87 | an error moves to dfuERROR with that status |
| DfuCore.SetAltSettingEffect | fw-manager/dfu/core/dfu_core.c:138-153 | an alternate setting out of range changes nothing; any other restarts in dfuIDLE/OK and initialises QFM for 0, QFU otherwise |
| DfuCore.DnloadRefusals | fw-manager/dfu/core/dfu_core.c:180-226 | an empty first block or a DNLOAD in a wrong state stalls; an out-of-sequence block is errVENDOR; an empty block the handler refuses is errNOTDONE |
| DfuCore.DnloadFinalize | fw-manager/dfu/core/dfu_core.c:211-226 | an empty in-sequence block goes to dfuMANIFEST-SYNC exactly when the handler's finalize agrees |
| DfuCore.DnloadAccepted | fw-manager/dfu/core/dfu_core.c:182-239 | an accepted block goes to the handler with index 0 at the start or the running count; next number = block + 1 (16-bit); count + 1 (32-bit); buffer zeroed; state dfuDNLOAD-SYNC |
| DfuCore.DnloadWorld | fw-manager/dfu/core/dfu_core.c:180-240 | a DNLOAD leaves the handler alone or applies exactly its block or finalize entry; the alternate setting never changes |
| DfuCore.UploadEffect | fw-manager/dfu/core/dfu_core.c:258-297 | UPLOAD is served in dfuIDLE and in-sequence dfuUPLOAD-IDLE; a short block ends the transfer; out of sequence is errVENDOR; other states stall |
| DfuCore.UploadWorld | fw-manager/dfu/core/dfu_core.c:258-297 | an UPLOAD leaves the handler alone or applies exactly its fill entry |
| DfuCore.GetStatusEffect | fw-manager/dfu/core/dfu_core.c:313-356 | in a SYNC state the handler status is adopted: an error goes to dfuERROR, a zero timeout to dfuDNLOAD-IDLE or dfuIDLE; dfuDNBUSY and dfuMANIFEST stall; elsewhere the state is reported unchanged |
| DfuCore.ClrAbortGetStateEffect | fw-manager/dfu/core/dfu_core.c:363-420 | CLRSTATUS only in dfuERROR (to dfuIDLE/OK); ABORT only in dfuDNLOAD-IDLE (handler aborts) and dfuUPLOAD-IDLE (to dfuIDLE); GETSTATE except in busy states; every refusal is dfuERROR/errSTALLEDPKT |
| DfuCore.StepReachable | fw-manager/dfu/core/dfu_core.c:138-420 | no request leads into appIDLE, appDETACH, dfuDNBUSY, dfuMANIFEST or dfuMANIFEST-WAIT-RESET, and the counters stay in range |
| DfuCore.NoBusyStall | fw-manager/dfu/core/dfu_core.c:313-395 | in a reachable state GETSTATUS and GETSTATE always answer |
| DfuCore.RunDownload | fw-manager/dfu/core/dfu_core.c:180-240 | a host download loop hands the handler at most one index per block |
| DfuCore.DownloadRound | fw-manager/dfu/core/dfu_core.c:180-240 | one DNLOAD plus GETSTATUS round hands the running count and moves count and expected number on by one |
| DfuCore.RunDownloadConsecutive | fw-manager/dfu/core/dfu_core.c:180-240 | a download from dfuIDLE hands the handler its blocks with indices 0, 1, 2, … |
| Device.QfuInitGood | fw-manager/qfu/qfu.c:343-351 | selecting a QFU setting on synced BL-Data keeps it synced and sets that setting |
| Device.QfuClrAbortGood | fw-manager/qfu/qfu.c:376-474 | QFU clear and abort keep BL-Data synced and never stop the device |
| Device.QfuBlockGood | fw-manager/qfu/qfu.c:392-406 | a QFU block on synced BL-Data never stops the device and keeps it synced |
| Device.QfuFinalizeGood | fw-manager/qfu/qfu.c:420-442 | a QFU finalize on synced BL-Data never stops the device and keeps it synced |
| Device.QfmBlockGood | fw-manager/qfm/qfm.c:316-333 | a QFM block on synced BL-Data never stops the device and keeps it synced |
| Device.SetAltInv | fw-manager/dfu/core/dfu_core.c:138-153 | selecting an alternate setting keeps the machine invariant |
| Device.DnloadQfuInv | fw-manager/dfu/core/dfu_core.c:180-240 | a DNLOAD to a QFU setting keeps the invariant |
| Device.DnloadQfmInv | fw-manager/dfu/core/dfu_core.c:180-240 | a DNLOAD to QFM keeps the invariant |
| Device.UploadInv | fw-manager/dfu/core/dfu_core.c:258-297 | an UPLOAD keeps the invariant |
| Device.StatusInv | fw-manager/dfu/core/dfu_core.c:313-395 | GETSTATUS and GETSTATE keep the invariant |
| Device.ClrInv | fw-manager/dfu/core/dfu_core.c:363-373 | CLRSTATUS keeps the invariant |
| Device.AbortInv | fw-manager/dfu/core/dfu_core.c:402-420 | ABORT keeps the invariant |
| Device.StepInv | fw-manager/dfu/core/dfu_core.c:138-420 | every request the transport can deliver keeps the invariant (reachable core, synced BL-Data, QFU on the selected setting) |
| Device.NeverHalts | fw-manager/bl_data.c:184-199 | from a good start, no sequence of requests ever reaches the endless loop |
| Device.HaltedFrozen | fw-manager/bl_data.c:184-199 | a stopped device answers nothing and stays as it is |
| Device.BootInv | bootstrap/rom_startup.c:151-155 | boot stops exactly on a compromised BL-Data section; otherwise, when every valid BL-Data copy names only targets the build has, the machine starts in dfuIDLE on setting 0 with the invariant |
| EndToEnd.MadeHeaderAsRead | fw-manager/qfu/qfu_format.h:55-67 | the device's 24-byte qfu_hdr_t read from a built image shows the host header's fields, the chosen extension type and a zero reserved field |
| EndToEnd.MadeSvnAsRead | fw-manager/qfu/qfu_format.h:93-104 | the device reads the svn the host signed |
| EndToEnd.MadeDigestAsRead | fw-manager/qfu/qfu_hmac.c:89-102 | the device's `hashes[i]` is the SHA-256 of data block i as the host cut it |
| EndToEnd.MadeTagAsRead | fw-manager/qfu/qfu_hmac.c:73-85 | the device's `hashes[n]` is the HMAC of exactly the header bytes before it, the same bytes the host signed |
| EndToEnd.DataBlocksAgreeIff | fw-manager/qfu/qfu.c:67 | the device's data-block count equals the host's exactly when the host header fits one block |
| EndToEnd.MadeShape | tools/sysupdate/qmfmlib/qfu.py:122-131 | corrected `make` (equal to the code's for block sizes that are multiples of 32): a built image has at least one header block, `num_blocks` = data blocks + header blocks, and the length is header blocks·bs + image length |
| EndToEnd.MadeHmacHeader | fw-manager/qfu/qfu_hmac.c:47-86 | a one-block HMAC header gives the device the host's fields, svn and tag |
| EndToEnd.DeviceAcceptsHmacImage | fw-manager/qfu/qfu.c:168-243 | an image built with the device's key, block size and setting, an svn no lower than the target's, and data that fits is accepted with the host's data-block count |
| EndToEnd.DeviceAcceptsPlainImage | fw-manager/qfu/qfu.c:168-243 | without authentication, an image built with no extension is accepted under the same conditions |
| EndToEnd.DeviceRefusesSha256Image | fw-manager/qfu/qfu.c:69-85 | the device has no SHA-256 extension, so an image built with `add_sha256` is refused |
| EndToEnd.DeviceAcceptsHmacBlocks | fw-manager/qfu/qfu_hmac.c:89-102 | each data block of such an image passes the block-hash check |

## Left out

- Flash driver: page write, page erase, the post-write verify (errVERIFY), the prefetch flush and interrupt masking are not modelled. A page write is taken to succeed and to read back as written.
- `start_addr`: the QFM presence test reads the first word through `start_addr`. The model reads the first page at `first_page` instead. The two are assumed to name the same flash.
- Page numbers: the model does not compute the 32-bit page-number wrap in `target_page`. A page the flash lacks is left alone.
- QFM packets: `qfm_packets.h` is not part of this model. The packet sizes, type field and update-packet fields come through a `Layout` parameter.
- Qfm.PrepareSysInfo: covers the partition and target parts of the response only. The constant fields are left out: ROM and bootloader versions, SoC type and target count.
- Header reads beyond `HDR_BUF_SIZE`: the C code can read a digest or tag past the header buffer for a partition larger than `BL_PARTITION_MAX_PAGES`. The model counts such a read as a mismatch. `Qfu.DigestsInBuffer` shows this cannot happen within that bound.
- Transport: the USB and UART transports (`usb_dfu.c`, `qda.c`), `dfu_usb_reset`, `dfu_detach` and `dfu_init`'s callers are not modelled. Device.Deliverable assumes the transport delivers blocks no longer than a QFU block.
- SHA-256 and HMAC-SHA-256: left as function parameters, so nothing is proved about their internals.
- Host tool: `print_info`, the DFU suffix, argument parsing and file I/O are not modelled. Configuration files are a sequence of lines, and the options are an `Overrides` record.
- QfuHost.Make: models one `make` per header. `add_extended_header`'s `insert(-1, …)` ordering across repeated calls is not modelled.
- Device.BootInv: the invariant is promised only when every valid BL-Data copy on flash names targets the build has (`BlData.StoredIndexed`). The firmware reads `targets[target_idx]` without a bounds check (`qfu_hmac.c:69`, `qfu.c:435`), so a copy naming a missing target is outside the model.
- Out-of-range target indices: `Qfu.Ready` requires every partition to name a target the build has. Nothing is said about what the firmware does with an index past the target table.
- Parser state: the macro table is built afresh for each file. In the code, `defines` is a class attribute shared by every parser instance, so later files would see earlier files' macros.
- Character classes: `\s`, `\S` and `\d` are read on ASCII text only. Python 3 also matches Unicode digits and spaces.
- Python integers: fields may be negative or unbounded in the model. Packing them is the `PackRange` error.

## Findings

| source | as written | input that shows it | evidently intended | confidence | as-written member | corrected member |
|---|---|---|---|---|---|---|
| tools/sysupdate/qmfmlib/qfu.py:417 | pads by `block_size - len % block_size`, a whole extra block of zeros when the header is already aligned | block size 4, no extension: the 24-byte header gets 4 zero bytes (7 blocks) while `make` counts 6 header blocks in `num_blocks` | pad by `(-len) % block_size`, as `header_blocks` assumes | not executed | QfuHost.PackedQfuHeaderAsWritten, QfuHost.PaddingExtraBlock, QfuHost.MakeAsWritten, QfuHost.MakeAsWrittenCounterexample | QfuHost.PackedQfuHeader, QfuHost.PackedLayout, QfuHost.Make, QfuHost.MakeLayout |
| tools/sysupdate/qmfmlib/qfu.py:77-78 | the class `[0-9,a-f,A-F]` also matches commas | `#define PAIR 0x1,0x2` captures "1,0" and `int(…, 16)` raises, aborting the whole configuration file | `[0-9a-fA-F]`, which reads PAIR as 1 | not executed | DefineParser.CommaListLineAsWritten, DefineParser.DefinesAsWritten, QfuHost.CommaListFileAborts | DefineParser.CommaListLineCorrected, DefineParser.ParseLine |
