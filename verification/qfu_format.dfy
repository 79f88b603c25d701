/** The QFU header as the device reads it (fw-manager/qfu/qfu_format.h): a
    packed little-endian `qfu_hdr_t` of 24 bytes followed by the extended
    header; for HMAC256, `qfu_hdr_hmac_t` is the svn word and then
    SHA-256 digests, one per data block and the final HMAC. */
module QfuFormat {
  import opened Wrappers
  import opened Bytes

  /** QFU_HDR_MAGIC: "QFUH" read as a little-endian word. */
  const QFU_HDR_MAGIC: nat := 0x48554651

  /** qfu_auth_type_t */
  const QFU_EXT_HDR_NONE: nat := 0
  const QFU_EXT_HDR_SHA256: nat := 1
  const QFU_EXT_HDR_HMAC256: nat := 2

  /** sizeof(qfu_hdr_t) and sizeof(qfu_hdr_hmac_t). */
  const HDR_SIZE: nat := 24
  const HMAC_HDR_SIZE: nat := 4

  /** The bytes "QFUH" are the magic word. */
  lemma MagicIsQfuh()
    ensures ReadLe32(['Q' as byte, 'F' as byte, 'U' as byte, 'H' as byte], 0) == QFU_HDR_MAGIC
  {
  }

  /* The fields of qfu_hdr_t, at their packed offsets. */

  function Magic(hdr: Bytes): nat requires HDR_SIZE <= |hdr| { ReadLe32(hdr, 0) }
  function Vid(hdr: Bytes): nat requires HDR_SIZE <= |hdr| { ReadLe16(hdr, 4) }
  function Pid(hdr: Bytes): nat requires HDR_SIZE <= |hdr| { ReadLe16(hdr, 6) }
  function PidDfu(hdr: Bytes): nat requires HDR_SIZE <= |hdr| { ReadLe16(hdr, 8) }
  function Partition(hdr: Bytes): nat requires HDR_SIZE <= |hdr| { ReadLe16(hdr, 10) }
  function Version(hdr: Bytes): nat requires HDR_SIZE <= |hdr| { ReadLe32(hdr, 12) }
  function BlockSz(hdr: Bytes): nat requires HDR_SIZE <= |hdr| { ReadLe16(hdr, 16) }
  /** The number of blocks of the image, header blocks included. */
  function NBlocks(hdr: Bytes): nat requires HDR_SIZE <= |hdr| { ReadLe16(hdr, 18) }
  function ExtHdrType(hdr: Bytes): nat requires HDR_SIZE <= |hdr| { ReadLe16(hdr, 20) }
  function Rsvd(hdr: Bytes): nat requires HDR_SIZE <= |hdr| { ReadLe16(hdr, 22) }

  /** qfu_hdr_hmac_t.svn */
  function Svn(hdr: Bytes): nat requires HDR_SIZE + HMAC_HDR_SIZE <= |hdr| { ReadLe32(hdr, HDR_SIZE) }

  /** Where `hashes[i]` starts; also the number of header bytes the HMAC
      covers when there are `i` data blocks. */
  function HashOffset(i: nat): nat {
    HDR_SIZE + HMAC_HDR_SIZE + 32 * i
  }

  /** `hashes[i]`, when it lies inside the bytes at hand. */
  function Hash(hdr: Bytes, i: nat): (r: Option<Digest>)
    ensures r.Some? <==> HashOffset(i) + 32 <= |hdr|
    ensures r.Some? ==> r.value == hdr[HashOffset(i)..HashOffset(i) + 32]
  {
    var off := HashOffset(i);
    if off + 32 <= |hdr| then Some(hdr[off..off + 32]) else None
  }
}
