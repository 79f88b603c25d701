/** The QFM request handler (fw-manager/qfm/qfm.c): the DFU handler behind
    alternate setting 0, which takes one management request per DNLOAD
    transfer (system information, application erase, key update) and
    returns the system-information response on the following UPLOAD.

    The byte layout of the QFM packets (qfm_packets.h) is not part of this
    model: where the handler reads a packet field, the model asks a
    `Layout` for it. */
module Qfm {
  import opened Wrappers
  import opened Bytes
  import Config
  import opened BlData
  import opened Dfu
  import opened Platform
  import opened FwManagerUtils

  /** The request types the handler dispatches on; `Unknown` is every other
      value of the type field. */
  datatype PacketType = SysInfoReq | AppEraseReq | UpdateFwKeyReq | UpdateRvKeyReq | Unknown

  /** qfm_update_pkt_t by its fields: the bytes the mac covers (the packet
      up to its mac), the new key, and the mac. */
  datatype UpdatePacket = UpdatePacket(signed: Bytes, key: Digest, mac: Digest)

  /** What qfm_packets.h fixes: sizeof(qfm_generic_pkt_t),
      sizeof(qfm_sys_info_rsp_t), the type field of a request, and a
      request read as qfm_update_pkt_t. */
  datatype Layout = Layout(
    genericSize: nat,
    sysInfoRspSize: nat,
    typeOf: Bytes -> PacketType,
    updateOf: Bytes -> UpdatePacket
  )

  /** The per-partition and per-target parts of qfm_sys_info_rsp_t that
      depend on BL-Data and flash. */
  datatype PartitionInfo = PartitionInfo(appPresent: bool, appVersion: nat)
  datatype SysInfo = SysInfo(partitions: seq<PartitionInfo>, activePartitionIdx: seq<nat>)

  /** The handler's variables: `dfu_status`, `sys_info_rsp_pending` and
      `sys_info_rsp`. */
  datatype QfmState = QfmState(status: Status, pending: bool, rsp: SysInfo)

  const ERASED_WORD: nat := 0xFFFF_FFFF

  /** `*part->start_addr`: the first word of the partition, read from its
      first page (a page the flash does not have reads as erased). */
  function FirstWord(app: AppFlash, p: Partition): (r: nat)
    ensures IsU32(r)
  {
    var k := (p.controller, p.firstPage);
    if k in app && 4 <= |app[k]| then ReadLe32(app[k], 0) else ERASED_WORD
  }

  /** `prepare_sys_info_rsp`: report, for each partition, whether its first
      word is programmed and its application version, and each target's
      active partition; the response is then pending. */
  function PrepareSysInfo(s: Store, m: QfmState): (r: QfmState)
    ensures r.pending && r.status == m.status
    ensures |r.rsp.partitions| == |s.shadow.partitions|
    ensures |r.rsp.activePartitionIdx| == |s.shadow.targets|
  {
    var ps, ts := s.shadow.partitions, s.shadow.targets;
    var info := seq(|ps|, i requires 0 <= i < |ps| =>
      PartitionInfo(FirstWord(s.app, ps[i]) != ERASED_WORD, ps[i].appVersion));
    var active := seq(|ts|, i requires 0 <= i < |ts| => ts[i].activePartitionIdx);
    m.(pending := true, rsp := SysInfo(info, active))
  }

  /** An application counts as present exactly when one of the first four
      bytes of its partition is programmed; versions and active partitions
      are those BL-Data records. */
  lemma SysInfoReport(s: Store, m: QfmState)
    ensures var r := PrepareSysInfo(s, m).rsp;
      && (forall i :: 0 <= i < |s.shadow.partitions| ==>
            var p, k := s.shadow.partitions[i], (s.shadow.partitions[i].controller, s.shadow.partitions[i].firstPage);
            && r.partitions[i].appVersion == p.appVersion
            && (r.partitions[i].appPresent <==>
                  k in s.app && 4 <= |s.app[k]| && exists j :: 0 <= j < 4 && s.app[k][j] != 0xFF))
      && (forall t :: 0 <= t < |s.shadow.targets| ==>
            r.activePartitionIdx[t] == s.shadow.targets[t].activePartitionIdx)
  {
    forall i | 0 <= i < |s.shadow.partitions|
      ensures var p := s.shadow.partitions[i]; var k := (p.controller, p.firstPage);
        PrepareSysInfo(s, m).rsp.partitions[i].appPresent <==>
          k in s.app && 4 <= |s.app[k]| && exists j :: 0 <= j < 4 && s.app[k][j] != 0xFF
    {
      var p := s.shadow.partitions[i];
      var k := (p.controller, p.firstPage);
      if k in s.app && 4 <= |s.app[k]| {
        Le32BlankIff(s.app[k], 0);
      }
    }
  }

  /* ---------------------------------------------------------------------- */
  /* app_erase                                                              */

  /** Every partition marked inconsistent. */
  function AllInconsistent(ps: seq<Partition>): (r: seq<Partition>)
    ensures |r| == |ps|
    ensures forall i :: 0 <= i < |r| ==> r[i] == ps[i].(isConsistent := 0)
    ensures forall i :: 0 <= i < |ps| && PartitionInRange(ps[i]) ==> PartitionInRange(r[i])
  {
    var r := seq(|ps|, i requires 0 <= i < |ps| => ps[i].(isConsistent := 0));
    assert forall i :: 0 <= i < |ps| && PartitionInRange(ps[i]) ==> PartitionInRange(r[i]) by {
      forall i | 0 <= i < |ps| && PartitionInRange(ps[i])
        ensures PartitionInRange(r[i])
      {
        PartitionInRangeFields(ps[i]);
        PartitionInRangeFields(r[i]);
      }
    }
    r
  }

  /** The first half of `app_erase`: every partition marked inconsistent
      and BL-Data written back. */
  function MarkAll(e: Env, s: Store): (r: Store)
    requires Valid(e) && StoreShape(e.b, s)
    ensures StoreShape(e.b, r) && Synced(e.b, r) && r.app == s.app
    ensures r.shadow == s.shadow.(partitions := AllInconsistent(s.shadow.partitions), crc := r.shadow.crc)
  {
    var s0 := s.(shadow := s.shadow.(partitions := AllInconsistent(s.shadow.partitions)));
    WritebackSynced(e.b, s0);
    Writeback(e.b, s0)
  }

  /** `app_erase`: mark every partition inconsistent, write BL-Data back and
      let the sanitize erase them. */
  function AppErase(e: Env, s: Store): (r: Option<Store>)
    requires Valid(e) && StoreShape(e.b, s)
    ensures r.Some? ==> StoreShape(e.b, r.value)
  {
    Sanitize(e.b, MarkAll(e, s), e.iv)
  }

  /** With every partition inconsistent, the pages to erase are those of
      any partition. */
  lemma InInconsistentAll(ps: seq<Partition>, k: (nat, nat))
    ensures InInconsistent(AllInconsistent(ps), k) <==> exists j :: 0 <= j < |ps| && Covers(ps[j], k)
  {
    if exists j :: 0 <= j < |ps| && Covers(ps[j], k) {
      var j :| 0 <= j < |ps| && Covers(ps[j], k);
      assert Covers(AllInconsistent(ps)[j], k);
    }
  }

  /** An application erase never halts; it blanks every page of every
      partition and leaves every other page alone. */
  lemma AppEraseFlash(e: Env, s: Store)
    requires Valid(e) && StoreShape(e.b, s)
    ensures AppErase(e, s).Some?
    ensures var r := AppErase(e, s).value;
      var ps := s.shadow.partitions;
      && r.app.Keys == s.app.Keys
      && (forall k :: k in s.app && (exists j :: 0 <= j < |ps| && Covers(ps[j], k)) ==> Blank(r.app[k]))
      && (forall k :: k in s.app && !(exists j :: 0 <= j < |ps| && Covers(ps[j], k)) ==> r.app[k] == s.app[k])
  {
    var s1 := MarkAll(e, s);
    SanitizeOfSynced(e.b, s1, e.iv);
    SanitizePartitionsEffect(e.b, s1);
    var (s3, wb) := SanitizePartitions(e.b, s1);
    assert AppErase(e, s) == Some(if wb then Writeback(e.b, s3) else s3);
    assert s1.shadow.partitions == AllInconsistent(s.shadow.partitions);
    forall k | k in s.app
      ensures InInconsistent(s1.shadow.partitions, k) <==> exists j :: 0 <= j < |s.shadow.partitions| && Covers(s.shadow.partitions[j], k)
    {
      InInconsistentAll(s.shadow.partitions, k);
    }
  }

  /** After an application erase BL-Data is synced, every partition is
      consistent again and otherwise as before, and the targets and keys
      are unchanged. */
  lemma AppEraseRecord(e: Env, s: Store)
    requires Valid(e) && StoreShape(e.b, s)
    ensures AppErase(e, s).Some?
    ensures var r := AppErase(e, s).value;
      var ps := s.shadow.partitions;
      && Synced(e.b, r)
      && |r.shadow.partitions| == |ps|
      && (forall i :: 0 <= i < |ps| ==> r.shadow.partitions[i] == ps[i].(isConsistent := 1))
      && r.shadow.targets == s.shadow.targets
      && r.shadow.fwKey == s.shadow.fwKey && r.shadow.rvKey == s.shadow.rvKey
  {
    var s1 := MarkAll(e, s);
    SanitizeOfSynced(e.b, s1, e.iv);
    SanitizeSynced(e.b, s1, e.iv);
    assert Recover(e.b, s1, e.iv).value == s1;
  }

  /** An application erase never halts and leaves BL-Data synced. */
  lemma AppEraseSynced(e: Env, s: Store)
    requires Valid(e) && StoreShape(e.b, s)
    ensures AppErase(e, s).Some? && Synced(e.b, AppErase(e, s).value)
    ensures Indexed(s.shadow) ==> Indexed(AppErase(e, s).value.shadow)
  {
    var s1 := MarkAll(e, s);
    SanitizeOfSynced(e.b, s1, e.iv);
    SanitizeSynced(e.b, s1, e.iv);
    SyncedStoredIndexed(e.b, s1);
    SanitizeIndexed(e.b, s1, e.iv);
  }

  /* ---------------------------------------------------------------------- */
  /* qfm_update_key                                                         */

  /** The mac a key-update packet must carry: the HMAC, under the
      revocation key, of the HMAC under the firmware key of the packet
      without its mac. */
  function ExpectedMac(e: Env, d: BlData, signed: Bytes): Digest {
    e.hmac(d.rvKey, e.hmac(d.fwKey, signed))
  }

  /** `qfm_update_key` for the firmware key (`fw`) or the revocation key:
      on a matching mac the key is replaced and BL-Data written back,
      otherwise errVENDOR with nothing changed. */
  function UpdateKey(e: Env, s: Store, pkt: UpdatePacket, fw: bool): (r: (Store, Status))
    requires Valid(e) && StoreShape(e.b, s)
    ensures StoreShape(e.b, r.0)
  {
    var d := s.shadow;
    if pkt.mac != ExpectedMac(e, d, pkt.signed) then (s, ErrVendor)
    else
      var d1 := if fw then d.(fwKey := pkt.key) else d.(rvKey := pkt.key);
      (Writeback(e.b, s.(shadow := d1)), Ok)
  }

  /** A key changes exactly when the mac matches the keys held before the
      update; then only that key changes, both copies hold the new record
      and the application flash is untouched. */
  lemma UpdateKeyEffect(e: Env, s: Store, pkt: UpdatePacket, fw: bool)
    requires Valid(e) && StoreShape(e.b, s)
    ensures var (r, status) := UpdateKey(e, s, pkt, fw);
      && (status == Ok <==> pkt.mac == ExpectedMac(e, s.shadow, pkt.signed))
      && (status != Ok ==> status == ErrVendor && r == s)
      && (status == Ok ==>
            && Synced(e.b, r)
            && r.app == s.app
            && r.shadow.fwKey == (if fw then pkt.key else s.shadow.fwKey)
            && r.shadow.rvKey == (if fw then s.shadow.rvKey else pkt.key)
            && r.shadow.partitions == s.shadow.partitions
            && r.shadow.targets == s.shadow.targets
            && r.shadow.head == s.shadow.head)
  {
    if pkt.mac == ExpectedMac(e, s.shadow, pkt.signed) {
      var d := s.shadow;
      var d1 := if fw then d.(fwKey := pkt.key) else d.(rvKey := pkt.key);
      WritebackSynced(e.b, s.(shadow := d1));
    }
  }

  /** A key update keeps a synced BL-Data synced, whether or not the mac
      matches. */
  lemma UpdateKeySynced(e: Env, s: Store, pkt: UpdatePacket, fw: bool)
    requires Valid(e) && StoreShape(e.b, s) && Synced(e.b, s)
    ensures Synced(e.b, UpdateKey(e, s, pkt, fw).0)
  {
    if pkt.mac == ExpectedMac(e, s.shadow, pkt.signed) {
      var d1 := if fw then s.shadow.(fwKey := pkt.key) else s.shadow.(rvKey := pkt.key);
      WritebackSynced(e.b, s.(shadow := d1));
    }
  }

  /** A key update leaves the partitions and targets as they were. */
  lemma UpdateKeyIndexed(e: Env, s: Store, pkt: UpdatePacket, fw: bool)
    requires Valid(e) && StoreShape(e.b, s) && Indexed(s.shadow)
    ensures Indexed(UpdateKey(e, s, pkt, fw).0.shadow)
  {
    UpdateKeyEffect(e, s, pkt, fw);
  }

  /* ---------------------------------------------------------------------- */
  /* process_qfm_req, qfm_dnl_process_block                                 */

  /** `process_qfm_req`: a request shorter than the generic packet, of an
      unknown type, or of a type the build does not offer (application
      erase needs authentication off, key updates need it on) is errTARGET;
      a firmware-key update is errVENDOR while the revocation key is the
      default one. None when the erase's sanitize halts. */
  function ProcessRequest(e: Env, lay: Layout, s: Store, m: QfmState, data: Bytes): (r: Option<(Store, QfmState)>)
    requires Valid(e) && StoreShape(e.b, s)
    ensures r.Some? ==> StoreShape(e.b, r.value.0)
  {
    if |data| < lay.genericSize then Some((s, m.(status := ErrTarget)))
    else
      match lay.typeOf(data)
      case SysInfoReq => Some((s, PrepareSysInfo(s, m).(status := Ok)))
      case AppEraseReq =>
        if e.b.auth then Some((s, m.(status := ErrTarget)))
        else
          var s1 :- AppErase(e, s);
          Some((s1, m.(status := Ok)))
      case UpdateFwKeyReq =>
        if !e.b.auth then Some((s, m.(status := ErrTarget)))
        else if IsZeroKey(s.shadow.rvKey) then Some((s, m.(status := ErrVendor)))
        else
          var (s1, status) := UpdateKey(e, s, lay.updateOf(data), true);
          Some((s1, m.(status := status)))
      case UpdateRvKeyReq =>
        if !e.b.auth then Some((s, m.(status := ErrTarget)))
        else
          var (s1, status) := UpdateKey(e, s, lay.updateOf(data), false);
          Some((s1, m.(status := status)))
      case Unknown => Some((s, m.(status := ErrTarget)))
  }

  /** `qfm_dnl_process_block`: every block clears a pending response; only
      block 0 carries a request, any other is errTARGET. */
  function ProcessBlock(e: Env, lay: Layout, s: Store, m: QfmState, blk: nat, data: Bytes): (r: Option<(Store, QfmState)>)
    requires Valid(e) && StoreShape(e.b, s)
    ensures r.Some? ==> StoreShape(e.b, r.value.0)
  {
    var m1 := m.(pending := false);
    if blk != 0 then Some((s, m1.(status := ErrTarget)))
    else ProcessRequest(e, lay, s, m1, data)
  }

  /** A block other than 0, a request shorter than the generic packet and
      a request of unknown type are errTARGET with BL-Data and flash
      untouched and no response pending. */
  lemma ProcessBlockRefused(e: Env, lay: Layout, s: Store, m: QfmState, blk: nat, data: Bytes)
    requires Valid(e) && StoreShape(e.b, s)
    requires blk != 0 || |data| < lay.genericSize || lay.typeOf(data) == Unknown
    ensures ProcessBlock(e, lay, s, m, blk, data) == Some((s, m.(pending := false, status := ErrTarget)))
  {
  }

  /** Only an application erase can halt, and a block leaves a response
      pending exactly when it is a system-information request, which
      reports the current BL-Data and flash. */
  lemma ProcessBlockPending(e: Env, lay: Layout, s: Store, m: QfmState, blk: nat, data: Bytes)
    requires Valid(e) && StoreShape(e.b, s)
    ensures var r := ProcessBlock(e, lay, s, m, blk, data);
      var req := blk == 0 && |data| >= lay.genericSize;
      && (r.None? ==> req && lay.typeOf(data) == AppEraseReq)
      && (r.Some? ==> (r.value.1.pending <==> req && lay.typeOf(data) == SysInfoReq))
      && (req && lay.typeOf(data) == SysInfoReq ==>
            r == Some((s, PrepareSysInfo(s, m.(pending := false)).(status := Ok))))
  {
    if blk == 0 && |data| >= lay.genericSize {
      var m1 := m.(pending := false);
      match lay.typeOf(data)
      case SysInfoReq =>
      case AppEraseReq =>
        if !e.b.auth {
          AppEraseFlash(e, s);
        }
      case UpdateFwKeyReq =>
      case UpdateRvKeyReq =>
      case Unknown =>
    }
  }

  /** On a synced section no request halts the handler, and BL-Data stays
      synced whatever the request does to it. */
  lemma ProcessRequestSynced(e: Env, lay: Layout, s: Store, m: QfmState, data: Bytes)
    requires Valid(e) && StoreShape(e.b, s) && Synced(e.b, s)
    ensures ProcessRequest(e, lay, s, m, data).Some?
    ensures Synced(e.b, ProcessRequest(e, lay, s, m, data).value.0)
  {
    if |data| >= lay.genericSize {
      match lay.typeOf(data)
      case AppEraseReq =>
        if !e.b.auth {
          AppEraseSynced(e, s);
        }
      case UpdateFwKeyReq =>
        if e.b.auth && !IsZeroKey(s.shadow.rvKey) {
          UpdateKeySynced(e, s, lay.updateOf(data), true);
        }
      case UpdateRvKeyReq =>
        if e.b.auth {
          UpdateKeySynced(e, s, lay.updateOf(data), false);
        }
      case SysInfoReq =>
      case Unknown =>
    }
  }

  /** No request makes a partition name a target the build lacks. */
  lemma ProcessRequestIndexed(e: Env, lay: Layout, s: Store, m: QfmState, data: Bytes)
    requires Valid(e) && StoreShape(e.b, s) && Indexed(s.shadow)
    requires ProcessRequest(e, lay, s, m, data).Some?
    ensures Indexed(ProcessRequest(e, lay, s, m, data).value.0.shadow)
  {
    if |data| >= lay.genericSize {
      match lay.typeOf(data)
      case AppEraseReq =>
        if !e.b.auth {
          AppEraseSynced(e, s);
        }
      case UpdateFwKeyReq =>
        if e.b.auth && !IsZeroKey(s.shadow.rvKey) {
          UpdateKeyIndexed(e, s, lay.updateOf(data), true);
        }
      case UpdateRvKeyReq =>
        if e.b.auth {
          UpdateKeyIndexed(e, s, lay.updateOf(data), false);
        }
      case SysInfoReq =>
      case Unknown =>
    }
  }

  lemma ProcessBlockSynced(e: Env, lay: Layout, s: Store, m: QfmState, blk: nat, data: Bytes)
    requires Valid(e) && StoreShape(e.b, s) && Synced(e.b, s)
    ensures ProcessBlock(e, lay, s, m, blk, data).Some?
    ensures Synced(e.b, ProcessBlock(e, lay, s, m, blk, data).value.0)
    ensures Indexed(s.shadow) ==> Indexed(ProcessBlock(e, lay, s, m, blk, data).value.0.shadow)
  {
    if blk == 0 {
      ProcessRequestSynced(e, lay, s, m.(pending := false), data);
      if Indexed(s.shadow) {
        ProcessRequestIndexed(e, lay, s, m.(pending := false), data);
      }
    }
  }

  /** Key updates exist only with authentication. Both need the packet's
      mac to match the current keys, and the firmware key also needs a
      provisioned revocation key; then exactly that key is replaced,
      otherwise the request is errVENDOR and BL-Data is unchanged. */
  lemma KeyUpdateRequest(e: Env, lay: Layout, s: Store, m: QfmState, data: Bytes)
    requires Valid(e) && StoreShape(e.b, s)
    requires |data| >= lay.genericSize
    requires lay.typeOf(data) == UpdateFwKeyReq || lay.typeOf(data) == UpdateRvKeyReq
    ensures var r := ProcessBlock(e, lay, s, m, 0, data);
      var pkt, fw := lay.updateOf(data), lay.typeOf(data) == UpdateFwKeyReq;
      var allowed := e.b.auth && !(fw && IsZeroKey(s.shadow.rvKey));
      && r.Some?
      && (!e.b.auth ==> r.value == (s, m.(pending := false, status := ErrTarget)))
      && (r.value.1.status == Ok <==> allowed && pkt.mac == ExpectedMac(e, s.shadow, pkt.signed))
      && (e.b.auth && r.value.1.status != Ok ==> r.value.1.status == ErrVendor && r.value.0 == s)
      && (r.value.1.status == Ok ==>
            && Synced(e.b, r.value.0)
            && r.value.0.shadow == s.shadow.(fwKey := r.value.0.shadow.fwKey, rvKey := r.value.0.shadow.rvKey,
                                             crc := r.value.0.shadow.crc)
            && r.value.0.shadow.fwKey == (if fw then pkt.key else s.shadow.fwKey)
            && r.value.0.shadow.rvKey == (if fw then s.shadow.rvKey else pkt.key)
            && r.value.0.app == s.app)
  {
    UpdateKeyEffect(e, s, lay.updateOf(data), lay.typeOf(data) == UpdateFwKeyReq);
  }

  /** After an application erase a system-information request reports no
      application in any partition that has pages. */
  lemma EraseThenNoApp(e: Env, s: Store, m: QfmState)
    requires Valid(e) && StoreShape(e.b, s)
    ensures var r := AppErase(e, s).value;
      var rsp := PrepareSysInfo(r, m).rsp;
      forall i :: 0 <= i < |s.shadow.partitions| && s.shadow.partitions[i].numPages > 0 ==>
        !rsp.partitions[i].appPresent
  {
    AppEraseFlash(e, s);
    AppEraseRecord(e, s);
    var r := AppErase(e, s).value;
    var ps := s.shadow.partitions;
    forall i | 0 <= i < |ps| && ps[i].numPages > 0
      ensures !PrepareSysInfo(r, m).rsp.partitions[i].appPresent
    {
      var k := (ps[i].controller, ps[i].firstPage);
      assert r.shadow.partitions[i] == ps[i].(isConsistent := 1);
      assert Covers(ps[i], k);
      BlankFirstPageNoApp(r, m, i);
    }
  }

  /** A partition whose first page is blank reports no application. */
  lemma BlankFirstPageNoApp(s: Store, m: QfmState, i: nat)
    requires i < |s.shadow.partitions|
    requires var p := s.shadow.partitions[i];
      var k := (p.controller, p.firstPage);
      k in s.app ==> Blank(s.app[k])
    ensures !PrepareSysInfo(s, m).rsp.partitions[i].appPresent
  {
    var p := s.shadow.partitions[i];
    var k := (p.controller, p.firstPage);
    if k in s.app && 4 <= |s.app[k]| {
      Le32BlankIff(s.app[k], 0);
    }
  }

  /* ---------------------------------------------------------------------- */
  /* qfm_init, qfm_get_processing_status, qfm_clear_status,                 */
  /* qfm_dnl_finalize_transfer, qfm_upl_fill_block, qfm_abort_transfer      */

  /** `qfm_init`: the alternate setting is ignored, the status is reset and
      a pending response stays pending. */
  function InitHandler(m: QfmState, alt: nat): (r: QfmState)
    ensures r.status == Ok && r.pending == m.pending && r.rsp == m.rsp
  {
    m.(status := Ok)
  }

  /** `qfm_get_processing_status`: requests are handled at once, so the
      poll timeout is 0. */
  function GetStatus(m: QfmState): (r: (Status, nat))
    ensures r == (m.status, 0)
  {
    (m.status, 0)
  }

  /** `qfm_clear_status` */
  function ClearStatus(m: QfmState): (r: QfmState)
    ensures r.status == Ok && r.pending == m.pending && r.rsp == m.rsp
  {
    m.(status := Ok)
  }

  /** `qfm_dnl_finalize_transfer`: a request is always one block, so the
      handler always agrees to end the transfer. */
  function FinalizeTransfer(m: QfmState, blk: nat): (r: (QfmState, bool))
    ensures r == (m, true)
  {
    (m, true)
  }

  /** `qfm_upl_fill_block`: the pending response, when the host asks for at
      least its size; nothing otherwise. The response is no longer pending
      afterwards. */
  function FillUploadBlock(lay: Layout, m: QfmState, blk: nat, reqLen: nat): (r: (QfmState, nat))
    ensures r.0 == m.(pending := false)
    ensures r.1 == lay.sysInfoRspSize <==> (m.pending && reqLen >= lay.sysInfoRspSize) || lay.sysInfoRspSize == 0
    ensures r.1 != 0 ==> r.1 == lay.sysInfoRspSize && m.pending && reqLen >= lay.sysInfoRspSize
    ensures r.1 <= reqLen
  {
    var len := if m.pending && reqLen >= lay.sysInfoRspSize then lay.sysInfoRspSize else 0;
    (m.(pending := false), len)
  }

  /** A response is uploaded at most once: a second upload right after the
      first is empty. */
  lemma UploadOnce(lay: Layout, m: QfmState, blk: nat, reqLen: nat, blk2: nat, reqLen2: nat)
    ensures var (m1, _) := FillUploadBlock(lay, m, blk, reqLen);
      FillUploadBlock(lay, m1, blk2, reqLen2).1 == 0
  {
  }

  /** `qfm_abort_transfer`: drop a pending response. */
  function AbortTransfer(m: QfmState): (r: QfmState)
    ensures r == m.(pending := false)
  {
    m.(pending := false)
  }
}
