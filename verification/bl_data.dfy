/** BL-Data, the bootloader's persistent metadata (fw-manager/bl_data.c,
    fw-manager/bl_data.h): a record kept twice in flash, a main and a backup
    page, each protected by a CRC-16 of everything before the crc word, and
    a copy of it in RAM, the shadow.

    Flash pages are byte sequences. Writing a page (`qm_flash_page_write`)
    is taken to erase it and program the given words, so the rest of the
    page reads 0xFF; erasing an application page leaves it all 0xFF. The
    application flash is a function from (controller, page) to the page's
    bytes. */
module BlData {
  import opened Wrappers
  import opened Bytes
  import opened Config
  import opened FwManagerUtils

  /** bl_flash_partition_t: seven 32-bit words. A partition is marked
      inconsistent by `is_consistent == 0` (false). */
  datatype Partition = Partition(
    targetIdx: nat,
    controller: nat,
    firstPage: nat,
    numPages: nat,
    startAddr: nat,
    isConsistent: nat,
    appVersion: nat
  )

  /** bl_boot_target_t: two 32-bit words. */
  datatype Target = Target(activePartitionIdx: nat, svn: nat)

  /** bl_data_t. `head` is everything before the partition table: the
      shadowed trim codes, the ROM version and the FPR alignment gap. */
  datatype BlData = BlData(
    head: Bytes,
    partitions: seq<Partition>,
    targets: seq<Target>,
    fwKey: Digest,
    rvKey: Digest,
    crc: nat
  )

  const PARTITION_SIZE: nat := 28
  const TARGET_SIZE: nat := 8

  /** The byte offsets of the fields of bl_data_t. */
  function PartitionsOff(b: Build): nat { b.fprGranularity }
  function TargetsOff(b: Build): nat { PartitionsOff(b) + PARTITION_SIZE * NumPartitions(b) }
  function FwKeyOff(b: Build): nat { TargetsOff(b) + TARGET_SIZE * b.numTargets }
  function RvKeyOff(b: Build): nat { FwKeyOff(b) + 32 }
  /** offsetof(bl_data_t, crc): the bytes the CRC covers. */
  function CrcOff(b: Build): nat { RvKeyOff(b) + 32 }

  lemma CrcOffIsSizeMinus4(b: Build)
    ensures CrcOff(b) + 4 == BlDataSize(b)
  {
  }

  function PartitionWords(p: Partition): seq<nat> {
    [p.targetIdx, p.controller, p.firstPage, p.numPages, p.startAddr, p.isConsistent, p.appVersion]
  }

  function PartitionOfWords(w: seq<nat>): Partition
    requires |w| == 7
  {
    Partition(w[0], w[1], w[2], w[3], w[4], w[5], w[6])
  }

  function TargetWords(t: Target): seq<nat> {
    [t.activePartitionIdx, t.svn]
  }

  function TargetOfWords(w: seq<nat>): Target
    requires |w| == 2
  {
    Target(w[0], w[1])
  }

  predicate PartitionInRange(p: Partition) {
    AllU32(PartitionWords(p))
  }

  predicate TargetInRange(t: Target) {
    AllU32(TargetWords(t))
  }

  /** A partition is storable exactly when each of its fields fits 32 bits. */
  lemma PartitionInRangeFields(p: Partition)
    ensures PartitionInRange(p) <==>
      && IsU32(p.targetIdx) && IsU32(p.controller) && IsU32(p.firstPage) && IsU32(p.numPages)
      && IsU32(p.startAddr) && IsU32(p.isConsistent) && IsU32(p.appVersion)
  {
    var w := PartitionWords(p);
    assert w[0] == p.targetIdx && w[1] == p.controller && w[2] == p.firstPage && w[3] == p.numPages;
    assert w[4] == p.startAddr && w[5] == p.isConsistent && w[6] == p.appVersion;
  }

  lemma TargetInRangeFields(t: Target)
    ensures TargetInRange(t) <==> IsU32(t.activePartitionIdx) && IsU32(t.svn)
  {
    var w := TargetWords(t);
    assert w[0] == t.activePartitionIdx && w[1] == t.svn;
  }

  /** Every partition names a target of the record's table. The code
      indexes `targets[target_idx]` without a check, so it relies on this;
      `target_idx` is const and no operation changes the table's size. */
  predicate Indexed(d: BlData) {
    forall i :: 0 <= i < |d.partitions| ==> d.partitions[i].targetIdx < |d.targets|
  }

  /** A record that has the build's shape and whose words all fit 32 bits:
      what can be stored in a page. */
  predicate WellFormed(b: Build, d: BlData) {
    && |d.head| == b.fprGranularity
    && |d.partitions| == NumPartitions(b)
    && |d.targets| == b.numTargets
    && (forall i :: 0 <= i < |d.partitions| ==> PartitionInRange(d.partitions[i]))
    && (forall i :: 0 <= i < |d.targets| ==> TargetInRange(d.targets[i]))
    && IsU32(d.crc)
  }

  /* ---------------------------------------------------------------------- */
  /* Byte layout                                                            */

  function EncodePartitions(ps: seq<Partition>): (r: Bytes)
    requires forall i :: 0 <= i < |ps| ==> PartitionInRange(ps[i])
    ensures |r| == PARTITION_SIZE * |ps|
  {
    if ps == [] then []
    else
      assert PartitionInRange(ps[0]);
      EncodeWords(PartitionWords(ps[0])) + EncodePartitions(ps[1..])
  }

  function DecodePartitions(r: Bytes, n: nat): (ps: seq<Partition>)
    requires |r| == PARTITION_SIZE * n
    ensures |ps| == n
    ensures forall i :: 0 <= i < n ==> PartitionInRange(ps[i])
  {
    if n == 0 then []
    else
      var w := DecodeWords(r[..PARTITION_SIZE]);
      [PartitionOfWords(w)] + DecodePartitions(r[PARTITION_SIZE..], n - 1)
  }

  function EncodeTargets(ts: seq<Target>): (r: Bytes)
    requires forall i :: 0 <= i < |ts| ==> TargetInRange(ts[i])
    ensures |r| == TARGET_SIZE * |ts|
  {
    if ts == [] then []
    else
      assert TargetInRange(ts[0]);
      EncodeWords(TargetWords(ts[0])) + EncodeTargets(ts[1..])
  }

  function DecodeTargets(r: Bytes, n: nat): (ts: seq<Target>)
    requires |r| == TARGET_SIZE * n
    ensures |ts| == n
    ensures forall i :: 0 <= i < n ==> TargetInRange(ts[i])
  {
    if n == 0 then []
    else
      var w := DecodeWords(r[..TARGET_SIZE]);
      [TargetOfWords(w)] + DecodeTargets(r[TARGET_SIZE..], n - 1)
  }

  lemma {:induction false} DecodeEncodePartitions(ps: seq<Partition>)
    requires forall i :: 0 <= i < |ps| ==> PartitionInRange(ps[i])
    ensures DecodePartitions(EncodePartitions(ps), |ps|) == ps
  {
    if ps != [] {
      var r := EncodePartitions(ps);
      var w := EncodeWords(PartitionWords(ps[0]));
      assert r[..PARTITION_SIZE] == w;
      assert r[PARTITION_SIZE..] == EncodePartitions(ps[1..]);
      DecodeEncodeWords(PartitionWords(ps[0]));
      DecodeEncodePartitions(ps[1..]);
    }
  }

  lemma {:induction false} EncodeDecodePartitions(r: Bytes, n: nat)
    requires |r| == PARTITION_SIZE * n
    ensures EncodePartitions(DecodePartitions(r, n)) == r
  {
    if n > 0 {
      var ps := DecodePartitions(r, n);
      var w := DecodeWords(r[..PARTITION_SIZE]);
      assert PartitionWords(ps[0]) == w;
      assert ps[1..] == DecodePartitions(r[PARTITION_SIZE..], n - 1);
      EncodeDecodeWords(r[..PARTITION_SIZE]);
      EncodeDecodePartitions(r[PARTITION_SIZE..], n - 1);
      assert r == r[..PARTITION_SIZE] + r[PARTITION_SIZE..];
    }
  }

  lemma {:induction false} DecodeEncodeTargets(ts: seq<Target>)
    requires forall i :: 0 <= i < |ts| ==> TargetInRange(ts[i])
    ensures DecodeTargets(EncodeTargets(ts), |ts|) == ts
  {
    if ts != [] {
      var r := EncodeTargets(ts);
      var w := EncodeWords(TargetWords(ts[0]));
      assert r[..TARGET_SIZE] == w;
      assert r[TARGET_SIZE..] == EncodeTargets(ts[1..]);
      DecodeEncodeWords(TargetWords(ts[0]));
      DecodeEncodeTargets(ts[1..]);
    }
  }

  lemma {:induction false} EncodeDecodeTargets(r: Bytes, n: nat)
    requires |r| == TARGET_SIZE * n
    ensures EncodeTargets(DecodeTargets(r, n)) == r
  {
    if n > 0 {
      var ts := DecodeTargets(r, n);
      var w := DecodeWords(r[..TARGET_SIZE]);
      assert TargetWords(ts[0]) == w;
      assert ts[1..] == DecodeTargets(r[TARGET_SIZE..], n - 1);
      EncodeDecodeWords(r[..TARGET_SIZE]);
      EncodeDecodeTargets(r[TARGET_SIZE..], n - 1);
      assert r == r[..TARGET_SIZE] + r[TARGET_SIZE..];
    }
  }

  /** The bytes the CRC covers: every field before `crc`. */
  function Body(b: Build, d: BlData): (r: Bytes)
    requires WellFormed(b, d)
    ensures |r| == CrcOff(b)
  {
    d.head + EncodePartitions(d.partitions) + EncodeTargets(d.targets) + d.fwKey + d.rvKey
  }

  /** The bytes of the record as stored: the body, then the crc word. */
  function Encode(b: Build, d: BlData): (r: Bytes)
    requires WellFormed(b, d)
    ensures |r| == BlDataSize(b)
  {
    Body(b, d) + Le32(d.crc)
  }

  /** The record read from `sizeof(bl_data_t)` bytes of flash. */
  function Decode(b: Build, r: Bytes): (d: BlData)
    requires |r| == BlDataSize(b)
    ensures WellFormed(b, d)
  {
    BlData(
      r[..PartitionsOff(b)],
      DecodePartitions(r[PartitionsOff(b)..TargetsOff(b)], NumPartitions(b)),
      DecodeTargets(r[TargetsOff(b)..FwKeyOff(b)], b.numTargets),
      r[FwKeyOff(b)..RvKeyOff(b)],
      r[RvKeyOff(b)..CrcOff(b)],
      ReadLe32(r, CrcOff(b)))
  }

  /** The fields of the body sit at their offsets. */
  lemma BodyLayout(b: Build, d: BlData)
    requires WellFormed(b, d)
    ensures var r := Body(b, d);
      && r[..PartitionsOff(b)] == d.head
      && r[PartitionsOff(b)..TargetsOff(b)] == EncodePartitions(d.partitions)
      && r[TargetsOff(b)..FwKeyOff(b)] == EncodeTargets(d.targets)
      && r[FwKeyOff(b)..RvKeyOff(b)] == d.fwKey
      && r[RvKeyOff(b)..] == d.rvKey
  {
    var p, t := EncodePartitions(d.partitions), EncodeTargets(d.targets);
    var x := d.head + p + t + d.fwKey;
    assert Body(b, d) == x + d.rvKey;
    assert x == (d.head + p + t) + d.fwKey;
    var y := d.head + p + t;
    assert y == (d.head + p) + t;
  }

  /** The fields of an encoded record sit at their offsets. */
  lemma EncodeLayout(b: Build, d: BlData)
    requires WellFormed(b, d)
    ensures var r := Encode(b, d);
      && r[..PartitionsOff(b)] == d.head
      && r[PartitionsOff(b)..TargetsOff(b)] == EncodePartitions(d.partitions)
      && r[TargetsOff(b)..FwKeyOff(b)] == EncodeTargets(d.targets)
      && r[FwKeyOff(b)..RvKeyOff(b)] == d.fwKey
      && r[RvKeyOff(b)..CrcOff(b)] == d.rvKey
      && r[..CrcOff(b)] == Body(b, d)
      && r[CrcOff(b)..] == Le32(d.crc)
  {
    var body, crc := Body(b, d), Le32(d.crc);
    BodyLayout(b, d);
    PrefixSlice(body, crc, 0, PartitionsOff(b));
    PrefixSlice(body, crc, PartitionsOff(b), TargetsOff(b));
    PrefixSlice(body, crc, TargetsOff(b), FwKeyOff(b));
    PrefixSlice(body, crc, FwKeyOff(b), RvKeyOff(b));
    PrefixSlice(body, crc, RvKeyOff(b), CrcOff(b));
    PrefixSlice(body, crc, 0, CrcOff(b));
    assert (body + crc)[CrcOff(b)..] == crc;
  }

  lemma PrefixSlice(x: Bytes, y: Bytes, lo: nat, hi: nat)
    requires lo <= hi <= |x|
    ensures (x + y)[lo..hi] == x[lo..hi]
  {
  }

  /** Reading a stored record gives back the record. */
  lemma DecodeEncode(b: Build, d: BlData)
    requires WellFormed(b, d)
    ensures Decode(b, Encode(b, d)) == d
  {
    var r := Encode(b, d);
    EncodeLayout(b, d);
    DecodeEncodePartitions(d.partitions);
    DecodeEncodeTargets(d.targets);
    Le32Slice(r, CrcOff(b), d.crc);
  }

  /** Storing a record read from flash gives back the same bytes. */
  lemma EncodeDecode(b: Build, r: Bytes)
    requires |r| == BlDataSize(b)
    ensures Encode(b, Decode(b, r)) == r
  {
    var d := Decode(b, r);
    var e := Encode(b, d);
    EncodeLayout(b, d);
    EncodeDecodePartitions(r[PartitionsOff(b)..TargetsOff(b)], NumPartitions(b));
    EncodeDecodeTargets(r[TargetsOff(b)..FwKeyOff(b)], b.numTargets);
    ReadLe32Encode(r, CrcOff(b));
    EqualBySegments(r, e, PartitionsOff(b), TargetsOff(b), FwKeyOff(b), RvKeyOff(b), CrcOff(b));
  }

  /** Two byte strings of equal length that agree on consecutive segments
      are equal. */
  lemma EqualBySegments(x: Bytes, y: Bytes, o1: nat, o2: nat, o3: nat, o4: nat, o5: nat)
    requires o1 <= o2 <= o3 <= o4 <= o5 <= |x| == |y|
    requires x[..o1] == y[..o1] && x[o1..o2] == y[o1..o2] && x[o2..o3] == y[o2..o3]
    requires x[o3..o4] == y[o3..o4] && x[o4..o5] == y[o4..o5] && x[o5..] == y[o5..]
    ensures x == y
  {
    forall i | 0 <= i < |x|
      ensures x[i] == y[i]
    {
      if i < o1 {
        assert x[..o1][i] == y[..o1][i];
      } else if i < o2 {
        assert x[o1..o2][i - o1] == y[o1..o2][i - o1];
      } else if i < o3 {
        assert x[o2..o3][i - o2] == y[o2..o3][i - o2];
      } else if i < o4 {
        assert x[o3..o4][i - o3] == y[o3..o4][i - o3];
      } else if i < o5 {
        assert x[o4..o5][i - o4] == y[o4..o5][i - o4];
      } else {
        assert x[o5..][i - o5] == y[o5..][i - o5];
      }
    }
  }

  /* ---------------------------------------------------------------------- */
  /* Flash pages                                                            */

  /** The `sizeof(bl_data_t)` bytes at the start of a BL-Data page. */
  function Record(b: Build, page: Bytes): (r: Bytes)
    requires BlDataSize(b) <= |page|
    ensures |r| == BlDataSize(b)
  {
    page[..BlDataSize(b)]
  }

  /** A copy is valid when its crc word holds the CRC-16 of every byte
      before it (the 16-bit CRC compared with the 32-bit word). */
  predicate RecordValid(b: Build, rec: Bytes)
    requires |rec| == BlDataSize(b)
  {
    ReadLe32(rec, CrcOff(b)) == Crc16(rec[..CrcOff(b)]) as int
  }

  /** A page after `bl_data_copy` wrote a record to it: the record, then
      erased bytes. */
  function PageImage(b: Build, rec: Bytes): (page: Bytes)
    requires BlDataSize(b) <= b.pageSize && |rec| == BlDataSize(b)
    ensures |page| == b.pageSize
  {
    rec + Fill(b.pageSize - |rec|, 0xFF)
  }

  lemma PageImageRecord(b: Build, rec: Bytes)
    requires BlDataSize(b) <= b.pageSize && |rec| == BlDataSize(b)
    ensures Record(b, PageImage(b, rec)) == rec
  {
    assert PageImage(b, rec)[..|rec|] == rec;
  }

  /** Every byte reads as erased flash. */
  predicate Blank(s: Bytes) {
    forall i :: 0 <= i < |s| ==> s[i] == 0xFF
  }

  /** The application flash: the bytes of each existing page, keyed by
      flash controller and page number. */
  type AppFlash = map<(nat, nat), Bytes>

  /** The BL-Data section (main and backup page), the RAM shadow and the
      application flash. */
  datatype Store = Store(main: Bytes, backup: Bytes, shadow: BlData, app: AppFlash)

  predicate StoreShape(b: Build, s: Store) {
    && BlDataSize(b) <= b.pageSize
    && |s.main| == b.pageSize
    && |s.backup| == b.pageSize
    && WellFormed(b, s.shadow)
  }

  /** Both copies hold the same valid record and the shadow is that record:
      the state `bl_data_sanitize` establishes. */
  predicate Synced(b: Build, s: Store)
    requires StoreShape(b, s)
  {
    && RecordValid(b, Record(b, s.main))
    && Record(b, s.main) == Record(b, s.backup)
    && Decode(b, Record(b, s.main)) == s.shadow
  }

  /* ---------------------------------------------------------------------- */
  /* bl_loop_if_not_blank                                                   */

  /** Walks the section a 32-bit word at a time and reports whether the
      firmware would stop (loop forever) on a word that is not 0xFFFFFFFF. */
  method LoopIfNotBlank(section: Bytes) returns (halts: bool)
    requires |section| % 4 == 0
    ensures halts <==> !Blank(section)
  {
    var off := 0;
    while off < |section|
      invariant off <= |section| && off % 4 == 0
      invariant forall i :: 0 <= i < off ==> section[i] == 0xFF
    {
      Le32BlankIff(section, off);
      if ReadLe32(section, off) != 0xFFFF_FFFF {
        return true;
      }
      off := off + 4;
    }
    return false;
  }

  /* ---------------------------------------------------------------------- */
  /* bl_data_init and bl_data_shadow_writeback                              */

  /** What `bl_data_init` installs: the computed trim codes followed by the
      ROM version (the leading bytes of the head), and the BL_PARTITION_LIST
      and BL_TARGET_LIST defaults. */
  datatype InitValues = InitValues(trimAndRom: Bytes, partitions: seq<Partition>, targets: seq<Target>)

  /** The build's lists fit the record, and every partition of
      BL_PARTITION_LIST names a target of BL_TARGET_LIST. */
  predicate InitFits(b: Build, iv: InitValues) {
    && |iv.trimAndRom| <= b.fprGranularity
    && |iv.partitions| == NumPartitions(b)
    && |iv.targets| == b.numTargets
    && (forall i :: 0 <= i < |iv.partitions| ==> PartitionInRange(iv.partitions[i]))
    && (forall i :: 0 <= i < |iv.targets| ==> TargetInRange(iv.targets[i]))
    && (forall i :: 0 <= i < |iv.partitions| ==> iv.partitions[i].targetIdx < |iv.targets|)
  }

  /** The shadow after `bl_data_init` filled it in: trim codes, ROM version
      and the descriptor lists are replaced; the alignment gap and both keys
      keep what the shadow held. */
  function Init(b: Build, d: BlData, iv: InitValues): (r: BlData)
    requires WellFormed(b, d) && InitFits(b, iv)
    ensures WellFormed(b, r)
  {
    var n := |iv.trimAndRom|;
    d.(head := iv.trimAndRom + d.head[n..], partitions := iv.partitions, targets := iv.targets)
  }

  lemma InitFields(b: Build, d: BlData, iv: InitValues)
    requires WellFormed(b, d) && InitFits(b, iv)
    ensures var r := Init(b, d, iv);
      && r.head[..|iv.trimAndRom|] == iv.trimAndRom
      && r.head[|iv.trimAndRom|..] == d.head[|iv.trimAndRom|..]
      && r.partitions == iv.partitions && r.targets == iv.targets
      && r.fwKey == d.fwKey && r.rvKey == d.rvKey
  {
    var r := Init(b, d, iv);
    assert r.head[..|iv.trimAndRom|] == iv.trimAndRom;
  }

  /** `bl_data_shadow_writeback`: store the CRC of the shadow in its crc
      field, then write the shadow to the main page and to the backup
      page. */
  function Writeback(b: Build, s: Store): (r: Store)
    requires StoreShape(b, s)
    ensures StoreShape(b, r)
  {
    var d := s.shadow.(crc := Crc16(Body(b, s.shadow)) as int);
    var page := PageImage(b, Encode(b, d));
    Store(page, page, d, s.app)
  }

  /** After a writeback both copies hold the same valid record, which reads
      back as the shadow; the shadow changed in its crc only. */
  lemma WritebackSynced(b: Build, s: Store)
    requires StoreShape(b, s)
    ensures Synced(b, Writeback(b, s))
    ensures Writeback(b, s).shadow == s.shadow.(crc := Writeback(b, s).shadow.crc)
    ensures Writeback(b, s).app == s.app
  {
    var r := Writeback(b, s);
    var d := r.shadow;
    var e := Encode(b, d);
    assert Body(b, d) == Body(b, s.shadow);
    PageImageRecord(b, e);
    EncodeLayout(b, d);
    assert e[CrcOff(b)..CrcOff(b) + 4] == Le32(d.crc);
    Le32Slice(e, CrcOff(b), d.crc);
    DecodeEncode(b, d);
  }

  /* ---------------------------------------------------------------------- */
  /* bl_data_sanitize_partitions                                            */

  /** The application page `k` (controller, page) belongs to partition `p`. */
  predicate Covers(p: Partition, k: (nat, nat)) {
    k.0 == p.controller && p.firstPage <= k.1 < p.firstPage + p.numPages
  }

  /** Some partition of `ps` still marked inconsistent. */
  predicate AnyInconsistent(ps: seq<Partition>) {
    exists j :: 0 <= j < |ps| && ps[j].isConsistent == 0
  }

  /** Page `k` belongs to a partition of `ps` marked inconsistent. */
  predicate InInconsistent(ps: seq<Partition>, k: (nat, nat)) {
    exists j :: 0 <= j < |ps| && ps[j].isConsistent == 0 && Covers(ps[j], k)
  }

  /** A partition after the fix: an inconsistent one is marked consistent. */
  function Fixed(p: Partition): (r: Partition)
    ensures PartitionInRange(p) ==> PartitionInRange(r)
    ensures r.targetIdx == p.targetIdx
  {
    if p.isConsistent == 0 then
      var r := p.(isConsistent := 1);
      assert PartitionInRange(p) ==> PartitionInRange(r) by {
        if PartitionInRange(p) {
          forall i | 0 <= i < 7
            ensures IsU32(PartitionWords(r)[i])
          {
            assert i != 5 ==> PartitionWords(r)[i] == PartitionWords(p)[i];
          }
        }
      }
      r
    else p
  }

  function FixedAll(ps: seq<Partition>): (r: seq<Partition>)
    ensures |r| == |ps|
    ensures forall i :: 0 <= i < |ps| && PartitionInRange(ps[i]) ==> PartitionInRange(r[i])
    ensures forall i :: 0 <= i < |ps| ==> r[i].targetIdx == ps[i].targetIdx
  {
    seq(|ps|, i requires 0 <= i < |ps| => Fixed(ps[i]))
  }

  /** The application flash after the pages of every inconsistent partition
      of `ps` were erased. */
  function EraseInconsistent(b: Build, ps: seq<Partition>, app: AppFlash): (r: AppFlash)
    ensures r.Keys == app.Keys
  {
    map k | k in app :: if InInconsistent(ps, k) then Fill(b.pageSize, 0xFF) else app[k]
  }

  /** `bl_data_erase_partition`: erase every page of one partition. */
  function ErasePartition(b: Build, p: Partition, app: AppFlash): (r: AppFlash)
    ensures r.Keys == app.Keys
  {
    map k | k in app :: if Covers(p, k) then Fill(b.pageSize, 0xFF) else app[k]
  }

  /** What `bl_data_sanitize_partitions` does to the shadow and the flash,
      and whether it asks for a writeback. */
  function SanitizePartitions(b: Build, s: Store): (r: (Store, bool))
    requires StoreShape(b, s)
    ensures StoreShape(b, r.0)
  {
    var ps := s.shadow.partitions;
    (s.(shadow := s.shadow.(partitions := FixedAll(ps)), app := EraseInconsistent(b, ps, s.app)),
     AnyInconsistent(ps))
  }

  /** Afterwards every partition is consistent, nothing but the flag
      changed, the pages of the partitions that were inconsistent are
      blank, every other page is untouched, and a writeback is asked for
      exactly when some partition was fixed. */
  lemma SanitizePartitionsEffect(b: Build, s: Store)
    requires StoreShape(b, s)
    ensures var (r, wb) := SanitizePartitions(b, s);
      var ps, qs := s.shadow.partitions, r.shadow.partitions;
      && |qs| == |ps|
      && (forall i :: 0 <= i < |qs| ==> qs[i].isConsistent != 0)
      && (forall i :: 0 <= i < |qs| ==> qs[i] == ps[i].(isConsistent := qs[i].isConsistent))
      && (forall i :: 0 <= i < |qs| && ps[i].isConsistent != 0 ==> qs[i] == ps[i])
      && r.shadow == s.shadow.(partitions := qs)
      && r.main == s.main && r.backup == s.backup
      && r.app.Keys == s.app.Keys
      && (forall k :: k in s.app && InInconsistent(ps, k) ==> Blank(r.app[k]))
      && (forall k :: k in s.app && !InInconsistent(ps, k) ==> r.app[k] == s.app[k])
      && (wb <==> exists i :: 0 <= i < |ps| && qs[i] != ps[i])
  {
    var ps := s.shadow.partitions;
    var qs := FixedAll(ps);
    if exists i :: 0 <= i < |ps| && qs[i] != ps[i] {
      var i :| 0 <= i < |ps| && qs[i] != ps[i];
      assert ps[i].isConsistent == 0;
    }
  }

  /** When no partition is inconsistent nothing changes. */
  lemma SanitizePartitionsNoop(b: Build, s: Store)
    requires StoreShape(b, s)
    requires forall i :: 0 <= i < |s.shadow.partitions| ==> s.shadow.partitions[i].isConsistent != 0
    ensures SanitizePartitions(b, s) == (s, false)
  {
    var ps := s.shadow.partitions;
    assert FixedAll(ps) == ps;
    assert EraseInconsistent(b, ps, s.app) == s.app;
  }

  lemma EraseStep(b: Build, ps: seq<Partition>, i: nat, app0: AppFlash)
    requires i < |ps|
    ensures EraseInconsistent(b, ps[..i + 1], app0)
      == if ps[i].isConsistent == 0 then ErasePartition(b, ps[i], EraseInconsistent(b, ps[..i], app0))
         else EraseInconsistent(b, ps[..i], app0)
  {
    var a, c := ps[..i], ps[..i + 1];
    forall k | k in app0
      ensures InInconsistent(c, k) <==> InInconsistent(a, k) || (ps[i].isConsistent == 0 && Covers(ps[i], k))
    {
      if InInconsistent(c, k) {
        var j :| 0 <= j < |c| && c[j].isConsistent == 0 && Covers(c[j], k);
        if j < i {
          assert a[j] == c[j];
        }
      }
      if InInconsistent(a, k) {
        var j :| 0 <= j < |a| && a[j].isConsistent == 0 && Covers(a[j], k);
        assert c[j] == a[j];
      }
      if ps[i].isConsistent == 0 && Covers(ps[i], k) {
        assert c[i] == ps[i];
      }
    }
  }

  lemma AnyStep(ps: seq<Partition>, i: nat)
    requires i < |ps|
    ensures AnyInconsistent(ps[..i + 1]) <==> AnyInconsistent(ps[..i]) || ps[i].isConsistent == 0
  {
    var a, c := ps[..i], ps[..i + 1];
    if AnyInconsistent(c) && ps[i].isConsistent != 0 {
      var j :| 0 <= j < i + 1 && c[j].isConsistent == 0;
      assert a[j] == c[j];
    }
    if AnyInconsistent(a) {
      var j :| 0 <= j < i && a[j].isConsistent == 0;
      assert c[j] == a[j];
    }
    assert c[i] == ps[i];
  }

  /** The loop of `bl_data_sanitize_partitions`, partition by partition:
      it computes what SanitizePartitions describes. */
  method SanitizePartitionsLoop(b: Build, ps0: seq<Partition>, app0: AppFlash)
    returns (ps: seq<Partition>, app: AppFlash, wbNeeded: bool)
    ensures ps == FixedAll(ps0)
    ensures app == EraseInconsistent(b, ps0, app0)
    ensures wbNeeded <==> AnyInconsistent(ps0)
  {
    ps, app, wbNeeded := ps0, app0, false;
    var i := 0;
    while i < |ps0|
      invariant i <= |ps0| && |ps| == |ps0|
      invariant forall j :: 0 <= j < i ==> ps[j] == Fixed(ps0[j])
      invariant forall j :: i <= j < |ps0| ==> ps[j] == ps0[j]
      invariant app == EraseInconsistent(b, ps0[..i], app0)
      invariant wbNeeded <==> AnyInconsistent(ps0[..i])
    {
      EraseStep(b, ps0, i, app0);
      AnyStep(ps0, i);
      assert ps[i] == ps0[i];
      if ps[i].isConsistent == 0 {
        app := ErasePartition(b, ps[i], app);
        ps := ps[i := Fixed(ps0[i])];
        wbNeeded := true;
      } else {
        assert ps[i] == Fixed(ps0[i]);
      }
      i := i + 1;
    }
    assert ps0[..i] == ps0;
  }

  /* ---------------------------------------------------------------------- */
  /* bl_data_sanitize                                                       */

  /** The first half of `bl_data_sanitize`: repair one copy from the other,
      or initialise a blank section. None when both copies are invalid and
      the section is not blank: the firmware stops there for good. */
  function Recover(b: Build, s: Store, iv: InitValues): (r: Option<Store>)
    requires StoreShape(b, s) && InitFits(b, iv)
    ensures r.Some? ==> StoreShape(b, r.value)
  {
    var m, k := Record(b, s.main), Record(b, s.backup);
    if !RecordValid(b, m) then
      if !RecordValid(b, k) then
        if !Blank(s.main + s.backup) then None
        else Some(Writeback(b, s.(shadow := Init(b, s.shadow, iv))))
      else Some(s.(main := PageImage(b, k)))
    else if m != k then Some(s.(backup := PageImage(b, m)))
    else Some(s)
  }

  /** `bl_data_sanitize`: recover the section, load the shadow from the main
      copy, fix inconsistent partitions and write back when any was fixed. */
  function Sanitize(b: Build, s: Store, iv: InitValues): (r: Option<Store>)
    requires StoreShape(b, s) && InitFits(b, iv)
    ensures r.Some? ==> StoreShape(b, r.value)
  {
    var s1 :- Recover(b, s, iv);
    var s2 := s1.(shadow := Decode(b, Record(b, s1.main)));
    var (s3, wb) := SanitizePartitions(b, s2);
    Some(if wb then Writeback(b, s3) else s3)
  }

  /** Both copies invalid and the section not blank. */
  predicate Compromised(b: Build, s: Store)
    requires StoreShape(b, s)
  {
    && !RecordValid(b, Record(b, s.main))
    && !RecordValid(b, Record(b, s.backup))
    && !Blank(s.main + s.backup)
  }

  /** Recovery halts exactly on a compromised section; otherwise both copies
      end up holding the same valid record: the main one when it was valid,
      else the backup when that was valid, else a freshly initialised one.
      The application flash is not touched. */
  lemma RecoverEffect(b: Build, s: Store, iv: InitValues)
    requires StoreShape(b, s) && InitFits(b, iv)
    ensures Recover(b, s, iv).None? <==> Compromised(b, s)
    ensures Recover(b, s, iv).Some? ==>
      var r := Recover(b, s, iv).value;
      && RecordValid(b, Record(b, r.main))
      && Record(b, r.main) == Record(b, r.backup)
      && r.app == s.app
      && (RecordValid(b, Record(b, s.main)) ==> Record(b, r.main) == Record(b, s.main) && r.shadow == s.shadow)
      && (!RecordValid(b, Record(b, s.main)) && RecordValid(b, Record(b, s.backup)) ==>
            Record(b, r.main) == Record(b, s.backup) && r.shadow == s.shadow)
      && (!RecordValid(b, Record(b, s.main)) && !RecordValid(b, Record(b, s.backup)) ==>
            Decode(b, Record(b, r.main)) == Init(b, s.shadow, iv).(crc := r.shadow.crc))
  {
    var m, k := Record(b, s.main), Record(b, s.backup);
    if !RecordValid(b, m) {
      if !RecordValid(b, k) {
        if Blank(s.main + s.backup) {
          WritebackSynced(b, s.(shadow := Init(b, s.shadow, iv)));
        }
      } else {
        PageImageRecord(b, k);
      }
    } else if m != k {
      PageImageRecord(b, m);
    }
  }

  /** The firmware stops exactly when both copies are invalid and the
      section is not blank. */
  lemma SanitizeHaltsIff(b: Build, s: Store, iv: InitValues)
    requires StoreShape(b, s) && InitFits(b, iv)
    ensures Sanitize(b, s, iv).None? <==> Compromised(b, s)
  {
    RecoverEffect(b, s, iv);
  }

  /** After a sanitize that does not halt, both copies hold the same valid
      record, the shadow is that record, every partition is consistent, and
      the shadow is the surviving record with its inconsistent partitions
      fixed. */
  lemma SanitizeSynced(b: Build, s: Store, iv: InitValues)
    requires StoreShape(b, s) && InitFits(b, iv)
    requires Sanitize(b, s, iv).Some?
    ensures var r := Sanitize(b, s, iv).value;
      var d := Decode(b, Record(b, Recover(b, s, iv).value.main));
      && Synced(b, r)
      && (forall i :: 0 <= i < |r.shadow.partitions| ==> r.shadow.partitions[i].isConsistent != 0)
      && r.shadow == d.(partitions := FixedAll(d.partitions), crc := r.shadow.crc)
  {
    RecoverEffect(b, s, iv);
    var s1 := Recover(b, s, iv).value;
    var s2 := s1.(shadow := Decode(b, Record(b, s1.main)));
    var (s3, wb) := SanitizePartitions(b, s2);
    SanitizePartitionsEffect(b, s2);
    if wb {
      WritebackSynced(b, s3);
    } else {
      SanitizePartitionsNoop(b, s2);
    }
  }

  /** What survives: a valid main copy, else a valid backup copy, else the
      initial values with the keys the shadow held. */
  lemma SanitizeSource(b: Build, s: Store, iv: InitValues)
    requires StoreShape(b, s) && InitFits(b, iv)
    requires Sanitize(b, s, iv).Some?
    ensures var r := Sanitize(b, s, iv).value;
      var main, bck := Decode(b, Record(b, s.main)), Decode(b, Record(b, s.backup));
      && (RecordValid(b, Record(b, s.main)) ==>
            r.shadow == main.(partitions := FixedAll(main.partitions), crc := r.shadow.crc))
      && (!RecordValid(b, Record(b, s.main)) && RecordValid(b, Record(b, s.backup)) ==>
            r.shadow == bck.(partitions := FixedAll(bck.partitions), crc := r.shadow.crc))
      && (!RecordValid(b, Record(b, s.main)) && !RecordValid(b, Record(b, s.backup)) ==>
            && r.shadow.partitions == FixedAll(iv.partitions)
            && r.shadow.targets == iv.targets
            && r.shadow.fwKey == s.shadow.fwKey && r.shadow.rvKey == s.shadow.rvKey
            && r.shadow.head[..|iv.trimAndRom|] == iv.trimAndRom)
  {
    RecoverEffect(b, s, iv);
    SanitizeSynced(b, s, iv);
    InitFields(b, s.shadow, iv);
  }

  /** On a synced store a sanitize never halts and only fixes the
      partitions: both copies already agree with the shadow. */
  lemma SanitizeOfSynced(b: Build, s: Store, iv: InitValues)
    requires StoreShape(b, s) && InitFits(b, iv)
    requires Synced(b, s)
    ensures Sanitize(b, s, iv) == Some(var (s3, wb) := SanitizePartitions(b, s); if wb then Writeback(b, s3) else s3)
  {
    assert Recover(b, s, iv) == Some(s);
    assert s.(shadow := Decode(b, Record(b, s.main))) == s;
  }

  /** A synced store whose partitions are all consistent is left as it is
      by a sanitize. */
  lemma SanitizeStable(b: Build, s: Store, iv: InitValues)
    requires StoreShape(b, s) && InitFits(b, iv)
    requires Synced(b, s)
    requires forall i :: 0 <= i < |s.shadow.partitions| ==> s.shadow.partitions[i].isConsistent != 0
    ensures Sanitize(b, s, iv) == Some(s)
  {
    SanitizeOfSynced(b, s, iv);
    SanitizePartitionsNoop(b, s);
  }

  /** A sanitized store is left as it is by the next sanitize. */
  lemma SanitizeIdempotent(b: Build, s: Store, iv: InitValues)
    requires StoreShape(b, s) && InitFits(b, iv)
    requires Sanitize(b, s, iv).Some?
    ensures Sanitize(b, Sanitize(b, s, iv).value, iv) == Sanitize(b, s, iv)
  {
    SanitizeSynced(b, s, iv);
    SanitizeStable(b, Sanitize(b, s, iv).value, iv);
  }

  /* ---------------------------------------------------------------------- */
  /* Target indices                                                         */

  /** Every valid copy on flash names only targets of its own table: true
      of every record this code writes. */
  predicate StoredIndexed(b: Build, s: Store)
    requires StoreShape(b, s)
  {
    && (RecordValid(b, Record(b, s.main)) ==> Indexed(Decode(b, Record(b, s.main))))
    && (RecordValid(b, Record(b, s.backup)) ==> Indexed(Decode(b, Record(b, s.backup))))
  }

  /** On synced pages the copies name in-range targets exactly when the
      shadow does. */
  lemma SyncedStoredIndexed(b: Build, s: Store)
    requires StoreShape(b, s) && Synced(b, s)
    ensures StoredIndexed(b, s) <==> Indexed(s.shadow)
  {
  }

  /** A sanitize that returns leaves a shadow that names in-range targets
      when every valid copy on flash did: it takes the main copy, the
      backup or the build's lists, and fixes only consistency flags. */
  lemma SanitizeIndexed(b: Build, s: Store, iv: InitValues)
    requires StoreShape(b, s) && InitFits(b, iv)
    requires Sanitize(b, s, iv).Some?
    ensures StoredIndexed(b, s) ==> Indexed(Sanitize(b, s, iv).value.shadow)
  {
    SanitizeSource(b, s, iv);
  }
}
