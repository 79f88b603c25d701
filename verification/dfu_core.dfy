/** The DFU core (fw-manager/dfu/core/dfu_core.c): the DFU 1.1 state
    machine of the firmware manager, with the vendor rule that blocks come
    in sequence. The request handler behind the active alternate setting is
    a parameter: QFM for alternate setting 0, QFU for every other one.

    Each request is a pure function from the device (core record and
    handler state) to the next device and what the request returns; a
    `false` result stands for the -EIO return code. */
module DfuCore {
  import opened Wrappers
  import opened Bytes
  import opened Dfu

  /** The static variables of dfu_core.c. `alt` selects `dfu_rh`. */
  datatype Core = Core(state: State, status: Status, alt: nat, blockCnt: nat, nextBlockNum: nat)

  datatype Device<H> = Device(core: Core, h: H)

  /** qfm_dfu_rh and qfu_dfu_rh. */
  datatype Handlers<!H> = Handlers(qfm: Handler<H>, qfu: Handler<H>)

  function Rh<H>(hs: Handlers<H>, alt: nat): Handler<H> {
    if alt == 0 then hs.qfm else hs.qfu
  }

  /** set_err */
  function SetErr<H>(d: Device<H>, err: Status): (r: Device<H>)
    ensures r.core.state == DfuError && r.core.status == err
  {
    d.(core := d.core.(state := DfuError, status := err))
  }

  /* ---------------------------------------------------------------------- */
  /* dfu_set_alt_setting                                                    */

  function SetAltSetting<H>(hs: Handlers<H>, numAlt: nat, d: Device<H>, alt: nat): (r: (Device<H>, bool))
    requires alt < 0x100
  {
    if alt >= numAlt then (d, false)
    else (Device(d.core.(state := DfuIdle, status := Ok, alt := alt), Rh(hs, alt).init(d.h, alt)), true)
  }

  /** An alternate setting out of range changes nothing; any other one
      restarts the machine in dfuIDLE/OK and initialises the handler it
      selects: QFM for 0, QFU otherwise. */
  lemma SetAltSettingEffect<H>(hs: Handlers<H>, numAlt: nat, d: Device<H>, alt: nat)
    requires alt < 0x100
    ensures var (r, ok) := SetAltSetting(hs, numAlt, d, alt);
      && (ok <==> alt < numAlt)
      && (!ok ==> r == d)
      && (ok ==> r.core.state == DfuIdle && r.core.status == Ok && r.core.alt == alt)
      && (ok && alt == 0 ==> r.h == hs.qfm.init(d.h, alt))
      && (ok && alt != 0 ==> r.h == hs.qfu.init(d.h, alt))
      && (ok ==> r.core.blockCnt == d.core.blockCnt && r.core.nextBlockNum == d.core.nextBlockNum)
  {
  }

  /* ---------------------------------------------------------------------- */
  /* dfu_process_dnload                                                     */

  /** The device after a DNLOAD, whether it was accepted, the index handed
      to the handler with the block (None when the handler got no block),
      and the request buffer afterwards. */
  datatype DnloadOutcome<H> = DnloadOutcome(d: Device<H>, ok: bool, handed: Option<nat>, buf: Bytes)

  /** A block that starts or continues a transfer: handed to the handler
      with the running index, then the buffer is cleared. */
  function Accept<H>(rh: Handler<H>, d: Device<H>, blockNum: nat, data: Bytes): DnloadOutcome<H> {
    var i := d.core.blockCnt;
    var c := d.core.(state := DnloadSync, nextBlockNum := (blockNum + 1) % U16_LIMIT,
                     blockCnt := (i + 1) % U32_LIMIT);
    DnloadOutcome(Device(c, rh.procDnloadBlk(d.h, i, data)), true, Some(i), Zeros(|data|))
  }

  function ProcessDnload<H>(hs: Handlers<H>, d: Device<H>, blockNum: nat, data: Bytes): (r: DnloadOutcome<H>)
    requires blockNum < U16_LIMIT && |data| < U16_LIMIT
  {
    var rh := Rh(hs, d.core.alt);
    if d.core.state == DfuIdle then
      if |data| == 0 then DnloadOutcome(SetErr(d, ErrStalledPkt), false, None, data)
      else Accept(rh, d.(core := d.core.(blockCnt := 0)), blockNum, data)
    else if d.core.state == DnloadIdle then
      if blockNum != d.core.nextBlockNum then DnloadOutcome(SetErr(d, ErrVendor), false, None, data)
      else if |data| == 0 then
        var (h, agreed) := rh.finDnloadXfer(d.h, blockNum);
        if agreed then DnloadOutcome(Device(d.core.(state := ManifestSync), h), true, None, data)
        else DnloadOutcome(SetErr(Device(d.core, h), ErrNotDone), false, None, data)
      else Accept(rh, d, blockNum, data)
    else DnloadOutcome(SetErr(d, ErrStalledPkt), false, None, data)
  }

  /** The refusals: an empty first block, or a DNLOAD outside dfuIDLE and
      dfuDNLOAD-IDLE, stall; a block out of sequence is a vendor error; an
      empty block the handler does not agree to end the transfer with is
      errNOTDONE. Only the last case reaches the handler. */
  lemma DnloadRefusals<H>(hs: Handlers<H>, d: Device<H>, blockNum: nat, data: Bytes)
    requires blockNum < U16_LIMIT && |data| < U16_LIMIT
    ensures var r := ProcessDnload(hs, d, blockNum, data);
      && (d.core.state == DfuIdle && |data| == 0 ==> !r.ok && r.d == SetErr(d, ErrStalledPkt))
      && (d.core.state != DfuIdle && d.core.state != DnloadIdle ==> !r.ok && r.d == SetErr(d, ErrStalledPkt))
      && (d.core.state == DnloadIdle && blockNum != d.core.nextBlockNum ==> !r.ok && r.d == SetErr(d, ErrVendor))
      && (!r.ok ==> r.d.core.state == DfuError && r.handed.None? && r.buf == data)
      && (!r.ok && r.d.core.status != ErrNotDone ==> r.d.h == d.h)
  {
  }

  /** The end of a transfer: an empty block with the expected number in
      dfuDNLOAD-IDLE goes to dfuMANIFEST-SYNC exactly when the handler's
      finalize agrees, and to errNOTDONE otherwise. */
  lemma DnloadFinalize<H>(hs: Handlers<H>, d: Device<H>, blockNum: nat)
    requires blockNum < U16_LIMIT
    requires d.core.state == DnloadIdle && blockNum == d.core.nextBlockNum
    ensures var r := ProcessDnload(hs, d, blockNum, []);
      var (h, agreed) := Rh(hs, d.core.alt).finDnloadXfer(d.h, blockNum);
      && r.ok == agreed && r.d.h == h && r.handed.None?
      && (agreed ==> r.d.core == d.core.(state := ManifestSync))
      && (!agreed ==> r.d.core == d.core.(state := DfuError, status := ErrNotDone))
  {
  }

  /** An accepted block: the handler gets it with index 0 at the start of
      a transfer and with the running count otherwise, the next expected
      number is the block's plus one (16-bit), the count moves on (32-bit),
      the buffer is zeroed and the machine waits in dfuDNLOAD-SYNC. */
  lemma DnloadAccepted<H>(hs: Handlers<H>, d: Device<H>, blockNum: nat, data: Bytes)
    requires blockNum < U16_LIMIT && |data| < U16_LIMIT
    requires |data| > 0
    requires d.core.state == DfuIdle || (d.core.state == DnloadIdle && blockNum == d.core.nextBlockNum)
    ensures var r := ProcessDnload(hs, d, blockNum, data);
      var i := if d.core.state == DfuIdle then 0 else d.core.blockCnt;
      && r.ok && r.handed == Some(i)
      && r.d.h == Rh(hs, d.core.alt).procDnloadBlk(d.h, i, data)
      && r.d.core.state == DnloadSync
      && r.d.core.nextBlockNum == (blockNum + 1) % U16_LIMIT
      && r.d.core.blockCnt == (i + 1) % U32_LIMIT
      && r.d.core.status == d.core.status && r.d.core.alt == d.core.alt
      && |r.buf| == |data| && (forall k :: 0 <= k < |r.buf| ==> r.buf[k] == 0)
  {
  }

  /** What a DNLOAD does to the handler state, whatever the outcome: it is
      left alone, or it is what the selected handler's DNLOAD or finalize
      entry makes of it. The alternate setting never changes and a
      reachable core stays reachable. */
  lemma DnloadWorld<H>(hs: Handlers<H>, d: Device<H>, blockNum: nat, data: Bytes)
    requires blockNum < U16_LIMIT && |data| < U16_LIMIT
    ensures var r := ProcessDnload(hs, d, blockNum, data).d;
      var i := if d.core.state == DfuIdle then 0 else d.core.blockCnt;
      && r.core.alt == d.core.alt
      && (Reachable(d.core) ==> Reachable(r.core))
      && (|| r.h == d.h
          || (|data| > 0 && r.h == Rh(hs, d.core.alt).procDnloadBlk(d.h, i, data))
          || (|data| == 0 && r.h == Rh(hs, d.core.alt).finDnloadXfer(d.h, blockNum).0))
  {
  }

  /* ---------------------------------------------------------------------- */
  /* dfu_process_upload                                                     */

  datatype UploadOutcome<H> = UploadOutcome(d: Device<H>, ok: bool, dataLen: nat)

  function ProcessUpload<H>(hs: Handlers<H>, d: Device<H>, blockNum: nat, reqLen: nat): (r: UploadOutcome<H>)
    requires blockNum < U16_LIMIT && reqLen < U16_LIMIT
  {
    var rh := Rh(hs, d.core.alt);
    if d.core.state != DfuIdle && d.core.state != UploadIdle then
      UploadOutcome(SetErr(d, ErrStalledPkt), false, 0)
    else
      var c := if d.core.state == DfuIdle then d.core.(blockCnt := 0, nextBlockNum := blockNum) else d.core;
      if blockNum != c.nextBlockNum then UploadOutcome(SetErr(Device(c, d.h), ErrVendor), false, 0)
      else
        var (h, len) := rh.fillUploadBlk(d.h, c.blockCnt, reqLen);
        var c2 := c.(nextBlockNum := (blockNum + 1) % U16_LIMIT, blockCnt := (c.blockCnt + 1) % U32_LIMIT,
                     state := if len < reqLen then DfuIdle else UploadIdle);
        UploadOutcome(Device(c2, h), true, len)
  }

  /** UPLOAD is served in dfuIDLE (which starts a transfer, index 0) and in
      dfuUPLOAD-IDLE with the expected block number; a short block ends the
      transfer. Out of sequence is a vendor error, any other state stalls. */
  lemma UploadEffect<H>(hs: Handlers<H>, d: Device<H>, blockNum: nat, reqLen: nat)
    requires blockNum < U16_LIMIT && reqLen < U16_LIMIT
    ensures var r := ProcessUpload(hs, d, blockNum, reqLen);
      && (d.core.state != DfuIdle && d.core.state != UploadIdle ==> !r.ok && r.d == SetErr(d, ErrStalledPkt))
      && (d.core.state == UploadIdle && blockNum != d.core.nextBlockNum ==>
            !r.ok && r.d == SetErr(d, ErrVendor))
      && (r.ok <==> d.core.state == DfuIdle || (d.core.state == UploadIdle && blockNum == d.core.nextBlockNum))
      && (r.ok ==>
            var i := if d.core.state == DfuIdle then 0 else d.core.blockCnt;
            && (r.d.h, r.dataLen) == Rh(hs, d.core.alt).fillUploadBlk(d.h, i, reqLen)
            && r.d.core.nextBlockNum == (blockNum + 1) % U16_LIMIT
            && r.d.core.blockCnt == (i + 1) % U32_LIMIT
            && (r.d.core.state == DfuIdle <==> r.dataLen < reqLen)
            && (r.d.core.state == UploadIdle <==> r.dataLen >= reqLen))
  {
  }

  /** What an UPLOAD does to the handler state: it is left alone or it is
      what the selected handler's fill entry makes of it; the alternate
      setting never changes and a reachable core stays reachable. */
  lemma UploadWorld<H>(hs: Handlers<H>, d: Device<H>, blockNum: nat, reqLen: nat)
    requires blockNum < U16_LIMIT && reqLen < U16_LIMIT
    ensures var r := ProcessUpload(hs, d, blockNum, reqLen).d;
      var i := if d.core.state == DfuIdle then 0 else d.core.blockCnt;
      && r.core.alt == d.core.alt
      && (Reachable(d.core) ==> Reachable(r.core))
      && (r.h == d.h || r.h == Rh(hs, d.core.alt).fillUploadBlk(d.h, i, reqLen).0)
  {
  }

  /* ---------------------------------------------------------------------- */
  /* dfu_get_status, dfu_clr_status, dfu_get_state, dfu_abort               */

  /** What DFU_GETSTATUS reports: bStatus, bState and bwPollTimeout. */
  datatype StatusReport = StatusReport(status: Status, state: State, pollTimeout: nat)

  function GetStatus<H>(hs: Handlers<H>, d: Device<H>): (r: (Device<H>, Option<StatusReport>)) {
    var st := d.core.state;
    if st == DnBusy || st == Manifest then (SetErr(d, ErrStalledPkt), None)
    else if st == DnloadSync || st == ManifestSync then
      var (status, poll) := Rh(hs, d.core.alt).getProcStatus(d.h);
      var next :=
        if status != Ok then DfuError
        else if poll == 0 then (if st == DnloadSync then DnloadIdle else DfuIdle)
        else st;
      (d.(core := d.core.(state := next, status := status)), Some(StatusReport(status, next, poll)))
    else (d, Some(StatusReport(d.core.status, st, 0)))
  }

  /** In a SYNC state the handler's status is adopted: an error moves to
      dfuERROR, a zero poll timeout to dfuDNLOAD-IDLE or dfuIDLE. In
      dfuDNBUSY and dfuMANIFEST the request stalls. Elsewhere it reports
      the current state and status with no timeout. The handler state and
      the block counters never change. */
  lemma GetStatusEffect<H>(hs: Handlers<H>, d: Device<H>)
    ensures var (r, rep) := GetStatus(hs, d);
      var (status, poll) := Rh(hs, d.core.alt).getProcStatus(d.h);
      var st := d.core.state;
      && r.h == d.h
      && r.core.blockCnt == d.core.blockCnt && r.core.nextBlockNum == d.core.nextBlockNum
      && ((st == DnBusy || st == Manifest) <==> rep.None?)
      && (rep.None? ==> r == SetErr(d, ErrStalledPkt))
      && ((st == DnloadSync || st == ManifestSync) ==>
            && r.core.status == status
            && (status != Ok ==> r.core.state == DfuError)
            && (status == Ok && poll == 0 && st == DnloadSync ==> r.core.state == DnloadIdle)
            && (status == Ok && poll == 0 && st == ManifestSync ==> r.core.state == DfuIdle)
            && (status == Ok && poll != 0 ==> r.core.state == st))
      && (rep.Some? ==> rep.value.state == r.core.state && rep.value.status == r.core.status)
      && (rep.Some? && st != DnloadSync && st != ManifestSync ==> r == d && rep.value.pollTimeout == 0)
  {
  }

  function ClrStatus<H>(hs: Handlers<H>, d: Device<H>): (r: (Device<H>, bool)) {
    if d.core.state != DfuError then (SetErr(d, ErrStalledPkt), false)
    else (Device(d.core.(state := DfuIdle, status := Ok), Rh(hs, d.core.alt).clrStatus(d.h)), true)
  }

  function GetState<H>(d: Device<H>): (r: (Device<H>, Option<State>)) {
    if d.core.state == DnBusy || d.core.state == Manifest then (SetErr(d, ErrStalledPkt), None)
    else (d, Some(d.core.state))
  }

  function Abort<H>(hs: Handlers<H>, d: Device<H>): (r: (Device<H>, bool)) {
    if d.core.state == DnloadIdle then
      (Device(d.core.(state := DfuIdle), Rh(hs, d.core.alt).abortDnloadXfer(d.h)), true)
    else if d.core.state == UploadIdle then (d.(core := d.core.(state := DfuIdle)), true)
    else (SetErr(d, ErrStalledPkt), false)
  }

  /** CLRSTATUS is accepted only in dfuERROR and resets to dfuIDLE/OK;
      ABORT only in dfuDNLOAD-IDLE (where the handler aborts) and
      dfuUPLOAD-IDLE, and goes to dfuIDLE keeping the status; GETSTATE
      reports the state except in dfuDNBUSY and dfuMANIFEST. Every refusal
      is dfuERROR/errSTALLEDPKT with the handler untouched. */
  lemma ClrAbortGetStateEffect<H>(hs: Handlers<H>, d: Device<H>)
    ensures var (r, ok) := ClrStatus(hs, d);
      && (ok <==> d.core.state == DfuError)
      && (ok ==> r.core.state == DfuIdle && r.core.status == Ok && r.h == Rh(hs, d.core.alt).clrStatus(d.h))
      && (!ok ==> r == SetErr(d, ErrStalledPkt))
    ensures var (r, ok) := Abort(hs, d);
      && (ok <==> d.core.state == DnloadIdle || d.core.state == UploadIdle)
      && (ok ==> r.core == d.core.(state := DfuIdle))
      && (ok && d.core.state == DnloadIdle ==> r.h == Rh(hs, d.core.alt).abortDnloadXfer(d.h))
      && (ok && d.core.state == UploadIdle ==> r.h == d.h)
      && (!ok ==> r == SetErr(d, ErrStalledPkt))
    ensures var (r, st) := GetState(d);
      && (st.None? <==> d.core.state == DnBusy || d.core.state == Manifest)
      && (st.Some? ==> r == d && st.value == d.core.state)
      && (st.None? ==> r == SetErr(d, ErrStalledPkt))
  {
  }

  /* ---------------------------------------------------------------------- */
  /* Requests and reachable states                                          */

  /** A request from the transport (USB DFU class requests or their QDA
      equivalents); the numbers are the 8- and 16-bit fields of the
      request. */
  datatype Request =
    | SetAlt(alt: nat)
    | Dnload(blockNum: nat, data: Bytes)
    | Upload(blockNum: nat, reqLen: nat)
    | GetStatusReq
    | ClrStatusReq
    | GetStateReq
    | AbortReq

  predicate RequestFits(q: Request) {
    match q
    case SetAlt(alt) => alt < 0x100
    case Dnload(bn, data) => bn < U16_LIMIT && |data| < U16_LIMIT
    case Upload(bn, len) => bn < U16_LIMIT && len < U16_LIMIT
    case _ => true
  }

  function Step<H>(hs: Handlers<H>, numAlt: nat, d: Device<H>, q: Request): Device<H>
    requires RequestFits(q)
  {
    match q
    case SetAlt(alt) => SetAltSetting(hs, numAlt, d, alt).0
    case Dnload(bn, data) => ProcessDnload(hs, d, bn, data).d
    case Upload(bn, len) => ProcessUpload(hs, d, bn, len).d
    case GetStatusReq => GetStatus(hs, d).0
    case ClrStatusReq => ClrStatus(hs, d).0
    case GetStateReq => GetState(d).0
    case AbortReq => Abort(hs, d).0
  }

  /** The states the firmware manager uses: it never enters appIDLE,
      appDETACH, dfuDNBUSY, dfuMANIFEST or dfuMANIFEST-WAIT-RESET, and its
      counters stay within their 32- and 16-bit variables. */
  predicate Reachable(c: Core) {
    && c.state in {DfuIdle, DnloadSync, DnloadIdle, ManifestSync, UploadIdle, DfuError}
    && c.blockCnt < U32_LIMIT
    && c.nextBlockNum < U16_LIMIT
  }

  lemma StepReachable<H>(hs: Handlers<H>, numAlt: nat, d: Device<H>, q: Request)
    requires RequestFits(q) && Reachable(d.core)
    ensures Reachable(Step(hs, numAlt, d, q).core)
  {
  }

  /** Hence the stalls GETSTATUS and GETSTATE keep for dfuDNBUSY and
      dfuMANIFEST never happen. */
  lemma NoBusyStall<H>(hs: Handlers<H>, d: Device<H>)
    requires Reachable(d.core)
    ensures GetStatus(hs, d).1.Some? && GetState(d).1.Some?
  {
  }

  /* ---------------------------------------------------------------------- */
  /* Block sequencing                                                       */

  /** A host download loop: every block goes out as a DNLOAD, the block
      numbers counting up from `blockNum`, each followed by a GETSTATUS.
      The loop ends at the first request the device does not answer with
      dfuDNLOAD-IDLE. The result lists the indices the handler was given
      the blocks with. */
  function RunDownload<H>(hs: Handlers<H>, d: Device<H>, blockNum: nat, blocks: seq<Bytes>): (r: (Device<H>, seq<nat>))
    requires blockNum < U16_LIMIT
    requires forall i :: 0 <= i < |blocks| ==> |blocks[i]| < U16_LIMIT
    ensures |r.1| <= |blocks|
    decreases |blocks|
  {
    if blocks == [] then (d, [])
    else
      var o := ProcessDnload(hs, d, blockNum, blocks[0]);
      if !o.ok || o.handed.None? then (o.d, [])
      else
        var (d2, _) := GetStatus(hs, o.d);
        if d2.core.state != DnloadIdle then (d2, [o.handed.value])
        else
          var (d3, rest) := RunDownload(hs, d2, (blockNum + 1) % U16_LIMIT, blocks[1..]);
          (d3, [o.handed.value] + rest)
  }

  /** One round of the loop in dfuDNLOAD-IDLE: the handler gets the
      running count, and when the status brings the machine back to
      dfuDNLOAD-IDLE the count and the expected number have both moved on
      by one. */
  lemma DownloadRound<H>(hs: Handlers<H>, d: Device<H>, blockNum: nat, block: Bytes, k: nat)
    requires blockNum < U16_LIMIT && |block| < U16_LIMIT
    requires k + 1 < U32_LIMIT
    requires (d.core.state == DnloadIdle && d.core.blockCnt == k && d.core.nextBlockNum == blockNum)
          || (d.core.state == DfuIdle && k == 0)
    ensures var o := ProcessDnload(hs, d, blockNum, block);
      o.ok && o.handed.Some? ==>
        && o.handed == Some(k)
        && GetStatus(hs, o.d).0.core.blockCnt == k + 1
        && GetStatus(hs, o.d).0.core.nextBlockNum == (blockNum + 1) % U16_LIMIT
  {
  }

  lemma ConsCounting(k: nat, rest: seq<nat>)
    requires forall j :: 0 <= j < |rest| ==> rest[j] == k + 1 + j
    ensures forall i :: 0 <= i < |[k] + rest| ==> ([k] + rest)[i] == k + i
  {
  }

  lemma {:induction false} RunDownloadFrom<H>(hs: Handlers<H>, d: Device<H>, blockNum: nat, blocks: seq<Bytes>, k: nat)
    requires blockNum < U16_LIMIT
    requires forall i :: 0 <= i < |blocks| ==> |blocks[i]| < U16_LIMIT
    requires (d.core.state == DnloadIdle && d.core.blockCnt == k && d.core.nextBlockNum == blockNum)
          || (d.core.state == DfuIdle && k == 0)
    requires k + |blocks| < U32_LIMIT
    ensures var idx := RunDownload(hs, d, blockNum, blocks).1;
      forall i :: 0 <= i < |idx| ==> idx[i] == k + i
    decreases |blocks|
  {
    if blocks != [] {
      var o := ProcessDnload(hs, d, blockNum, blocks[0]);
      DownloadRound(hs, d, blockNum, blocks[0], k);
      if o.ok && o.handed.Some? {
        var d2 := GetStatus(hs, o.d).0;
        if d2.core.state == DnloadIdle {
          var next := (blockNum + 1) % U16_LIMIT;
          var rest := RunDownload(hs, d2, next, blocks[1..]).1;
          RunDownloadFrom(hs, d2, next, blocks[1..], k + 1);
          assert RunDownload(hs, d2, next, blocks[1..]).1 == rest;
          assert forall i :: 0 <= i < |RunDownload(hs, d2, next, blocks[1..]).1| ==> RunDownload(hs, d2, next, blocks[1..]).1[i] == k + 1 + i;
          assert RunDownload(hs, d, blockNum, blocks).1 == [k] + rest;
          ConsCounting(k, rest);
        }
      }
    }
  }

  /** The sequencing rule at work: however a download from dfuIDLE goes,
      the handler is given its blocks with indices 0, 1, 2, ... in
      order, so it can treat block 0 as the first of the image. */
  lemma RunDownloadConsecutive<H>(hs: Handlers<H>, d: Device<H>, blockNum: nat, blocks: seq<Bytes>)
    requires blockNum < U16_LIMIT
    requires forall i :: 0 <= i < |blocks| ==> |blocks[i]| < U16_LIMIT
    requires d.core.state == DfuIdle
    requires |blocks| < U32_LIMIT
    ensures var idx := RunDownload(hs, d, blockNum, blocks).1;
      forall i :: 0 <= i < |idx| ==> idx[i] == i
  {
    RunDownloadFrom(hs, d, blockNum, blocks, 0);
  }
}
