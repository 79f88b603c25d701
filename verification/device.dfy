/** The firmware manager as one machine: the DFU core driving the QFM
    handler on alternate setting 0 and the QFU handler on the others, over
    the shared BL-Data section, shadow and application flash.

    `halted` records that a handler ran `bl_data_sanitize` on a compromised
    section and never returned; a halted machine answers nothing more. The
    transport (usb_dfu.c, qda.c) hands DNLOAD blocks of at most one QFU
    block to the core. */
module Device {
  import opened Wrappers
  import opened Bytes
  import Config
  import opened BlData
  import opened Dfu
  import opened DfuCore
  import opened Platform
  import Qfu
  import Qfm

  /** The handlers' shared world. */
  datatype Fm = Fm(store: Store, qfu: Qfu.QfuState, qfm: Qfm.QfmState, halted: bool)

  /** What every handler needs of the world to run. */
  predicate Runs(e: Env, f: Fm) {
    && Valid(e) && !f.halted && StoreShape(e.b, f.store)
    && |f.qfu.hdr| == Config.HdrBufSize(e.b)
  }

  /** The QFU handler needs, in addition, its alternate setting and a
      shadow copy whose partitions name targets it has: the code indexes
      the targets without a check, so the model says nothing of a world
      that breaks this. */
  predicate QfuRuns(e: Env, f: Fm) {
    Runs(e, f) && Qfu.Fits(e, f.qfu) && Indexed(f.store.shadow)
  }

  /** The outcome of a QFU handler call: halted, or the new store and
      handler variables. */
  function LiftQfu(f: Fm, r: Option<(Store, Qfu.QfuState)>): Fm {
    match r
    case None => f.(halted := true)
    case Some((s, q)) => f.(store := s, qfu := q)
  }

  function LiftQfm(f: Fm, r: Option<(Store, Qfm.QfmState)>): Fm {
    match r
    case None => f.(halted := true)
    case Some((s, m)) => f.(store := s, qfm := m)
  }

  /** The QFU handler entries: each runs its `qfu_*` function when the
      world lets it, and halts the machine when that function sanitizes a
      compromised section. */
  function QfuInit(e: Env, f: Fm, alt: nat): Fm {
    if Runs(e, f) && 1 <= alt <= Config.NumPartitions(e.b) && alt < 0x100
    then LiftQfu(f, Qfu.InitHandler(e, f.store, f.qfu, alt)) else f
  }

  function QfuClear(e: Env, f: Fm): Fm {
    if QfuRuns(e, f) then LiftQfu(f, Qfu.ClearStatus(e, f.store, f.qfu)) else f
  }

  function QfuBlock(e: Env, f: Fm, blk: nat, data: Bytes): Fm {
    if QfuRuns(e, f) && |data| <= Config.BlockSize(e.b)
    then LiftQfu(f, Qfu.ProcessBlock(e, f.store, f.qfu, blk, data)) else f
  }

  function QfuFinalize(e: Env, f: Fm, blk: nat): (Fm, bool) {
    if QfuRuns(e, f) then
      match Qfu.FinalizeTransfer(e, f.store, f.qfu, blk)
      case None => (f.(halted := true), false)
      case Some((s, agreed)) => (f.(store := s), agreed)
    else (f, false)
  }

  function QfuAbort(e: Env, f: Fm): Fm {
    if QfuRuns(e, f) then LiftQfu(f, Qfu.AbortTransfer(e, f.store, f.qfu)) else f
  }

  /** qfu_dfu_rh */
  function QfuRh(e: Env): Handler<Fm> {
    Handler(
      (f: Fm, alt: nat) => QfuInit(e, f, alt),
      (f: Fm) => Qfu.GetStatus(f.qfu),
      (f: Fm) => QfuClear(e, f),
      (f: Fm, blk: nat, data: Bytes) => QfuBlock(e, f, blk, data),
      (f: Fm, blk: nat) => QfuFinalize(e, f, blk),
      (f: Fm, blk: nat, reqLen: nat) =>
        var (q, len) := Qfu.FillUploadBlock(f.qfu, blk, reqLen); (f.(qfu := q), len),
      (f: Fm) => QfuAbort(e, f)
    )
  }

  /** The QFM handler's DNLOAD entry. */
  function QfmBlock(e: Env, lay: Qfm.Layout, f: Fm, blk: nat, data: Bytes): Fm {
    if Runs(e, f) then LiftQfm(f, Qfm.ProcessBlock(e, lay, f.store, f.qfm, blk, data)) else f
  }

  /** qfm_dfu_rh */
  function QfmRh(e: Env, lay: Qfm.Layout): Handler<Fm> {
    Handler(
      (f: Fm, alt: nat) => f.(qfm := Qfm.InitHandler(f.qfm, alt)),
      (f: Fm) => Qfm.GetStatus(f.qfm),
      (f: Fm) => f.(qfm := Qfm.ClearStatus(f.qfm)),
      (f: Fm, blk: nat, data: Bytes) => QfmBlock(e, lay, f, blk, data),
      (f: Fm, blk: nat) => var (m, agreed) := Qfm.FinalizeTransfer(f.qfm, blk); (f.(qfm := m), agreed),
      (f: Fm, blk: nat, reqLen: nat) =>
        var (m, len) := Qfm.FillUploadBlock(lay, f.qfm, blk, reqLen); (f.(qfm := m), len),
      (f: Fm) => f.(qfm := Qfm.AbortTransfer(f.qfm))
    )
  }

  function Handlers(e: Env, lay: Qfm.Layout): DfuCore.Handlers<Fm> {
    DfuCore.Handlers(QfmRh(e, lay), QfuRh(e))
  }

  /** The world of a firmware manager that runs normally: BL-Data synced
      with in-range target indices, and the QFU handler's alternate
      setting one the build has. */
  predicate Good(e: Env, f: Fm) {
    && Runs(e, f)
    && Synced(e.b, f.store)
    && Indexed(f.store.shadow)
    && f.qfu.alt <= Config.NumPartitions(e.b) && f.qfu.alt < 0x100
  }

  /** A DNLOAD block the transport can deliver. */
  predicate Deliverable(e: Env, q: Request) {
    q.Dnload? ==> |q.data| <= Config.BlockSize(e.b)
  }

  /** One request to the firmware manager; a halted one does not answer. */
  function Run(e: Env, lay: Qfm.Layout, d: Device<Fm>, q: Request): Device<Fm>
    requires RequestFits(q)
  {
    if d.h.halted then d else Step(Handlers(e, lay), Config.NumAltSettings(e.b), d, q)
  }

  /** The machine invariant: the core is in a state it can reach, the
      world is good, and the QFU handler serves the selected alternate
      setting. */
  predicate Inv(e: Env, d: Device<Fm>) {
    && Reachable(d.core)
    && Good(e, d.h)
    && d.core.alt < Config.NumAltSettings(e.b)
    && (d.core.alt != 0 ==> d.h.qfu.alt == d.core.alt)
  }

  /* ---------------------------------------------------------------------- */
  /* Each handler entry keeps the world good                                 */

  /** A synced section is not compromised, so no sanitize on it halts. */
  lemma SyncedNotCompromised(b: Config.Build, s: Store)
    requires StoreShape(b, s) && Synced(b, s)
    ensures !Compromised(b, s)
  {
  }

  lemma QfuInitGood(e: Env, f: Fm, alt: nat)
    requires Good(e, f) && 1 <= alt < Config.NumAltSettings(e.b) && alt < 0x100
    ensures var r := QfuInit(e, f, alt);
      Good(e, r) && r.qfu.alt == alt && r.qfu.status == Ok && r.qfm == f.qfm
  {
    SyncedNotCompromised(e.b, f.store);
    SyncedStoredIndexed(e.b, f.store);
  }

  lemma QfuClrAbortGood(e: Env, f: Fm)
    requires Good(e, f)
    ensures var r := QfuClear(e, f); Good(e, r) && r.qfu.alt == f.qfu.alt && r.qfm == f.qfm
    ensures var r := QfuAbort(e, f); Good(e, r) && r.qfu == f.qfu && r.qfm == f.qfm
  {
    SyncedNotCompromised(e.b, f.store);
    SyncedStoredIndexed(e.b, f.store);
  }

  lemma QfuBlockGood(e: Env, f: Fm, blk: nat, data: Bytes)
    requires Good(e, f) && |data| <= Config.BlockSize(e.b)
    ensures var r := QfuBlock(e, f, blk, data); Good(e, r) && r.qfu.alt == f.qfu.alt && r.qfm == f.qfm
  {
    if QfuRuns(e, f) {
      SyncedNotCompromised(e.b, f.store);
      Qfu.ProcessBlockHalts(e, f.store, f.qfu, blk, data);
      Qfu.ProcessBlockSynced(e, f.store, f.qfu, blk, data);
      Qfu.ProcessBlockIndexed(e, f.store, f.qfu, blk, data);
    }
  }

  lemma QfuFinalizeGood(e: Env, f: Fm, blk: nat)
    requires Good(e, f)
    ensures var r := QfuFinalize(e, f, blk).0; Good(e, r) && r.qfu == f.qfu && r.qfm == f.qfm
  {
    if QfuRuns(e, f) {
      SyncedNotCompromised(e.b, f.store);
      if blk != Qfu.F.NBlocks(f.qfu.hdr) {
        Qfu.FinalizeRefused(e, f.store, f.qfu, blk);
      } else {
        Qfu.FinalizeAgreed(e, f.store, f.qfu);
      }
    }
  }

  lemma QfmBlockGood(e: Env, lay: Qfm.Layout, f: Fm, blk: nat, data: Bytes)
    requires Good(e, f)
    ensures var r := QfmBlock(e, lay, f, blk, data); Good(e, r) && r.qfu == f.qfu
  {
    Qfm.ProcessBlockSynced(e, lay, f.store, f.qfm, blk, data);
  }

  /* ---------------------------------------------------------------------- */
  /* The machine                                                            */

  lemma SetAltInv(e: Env, lay: Qfm.Layout, d: Device<Fm>, alt: nat)
    requires alt < 0x100 && Inv(e, d)
    ensures Inv(e, SetAltSetting(Handlers(e, lay), Config.NumAltSettings(e.b), d, alt).0)
  {
    if 1 <= alt < Config.NumAltSettings(e.b) {
      QfuInitGood(e, d.h, alt);
    }
  }

  /** A request that keeps the alternate setting, leaves the core
      reachable and the world good, with the QFU handler on the same
      alternate setting, keeps the invariant. */
  lemma KeepInv(e: Env, d: Device<Fm>, c: Core, h: Fm)
    requires Inv(e, d) && Reachable(c) && c.alt == d.core.alt
    requires Good(e, h) && h.qfu.alt == d.h.qfu.alt
    ensures Inv(e, Device(c, h))
  {
  }

  lemma DnloadQfmInv(e: Env, lay: Qfm.Layout, d: Device<Fm>, bn: nat, data: Bytes)
    requires bn < U16_LIMIT && |data| < U16_LIMIT
    requires Inv(e, d) && d.core.alt == 0
    ensures Inv(e, ProcessDnload(Handlers(e, lay), d, bn, data).d)
  {
    var r := ProcessDnload(Handlers(e, lay), d, bn, data).d;
    var i := if d.core.state == DfuIdle then 0 else d.core.blockCnt;
    DnloadWorld(Handlers(e, lay), d, bn, data);
    if r.h != d.h && |data| > 0 {
      QfmBlockGood(e, lay, d.h, i, data);
      assert r.h == QfmBlock(e, lay, d.h, i, data);
    }
    KeepInv(e, d, r.core, r.h);
  }

  lemma DnloadQfuInv(e: Env, lay: Qfm.Layout, d: Device<Fm>, bn: nat, data: Bytes)
    requires bn < U16_LIMIT && |data| < U16_LIMIT && |data| <= Config.BlockSize(e.b)
    requires Inv(e, d) && d.core.alt != 0
    ensures Inv(e, ProcessDnload(Handlers(e, lay), d, bn, data).d)
  {
    var r := ProcessDnload(Handlers(e, lay), d, bn, data).d;
    var i := if d.core.state == DfuIdle then 0 else d.core.blockCnt;
    DnloadWorld(Handlers(e, lay), d, bn, data);
    if r.h != d.h {
      if |data| > 0 {
        QfuBlockGood(e, d.h, i, data);
        assert r.h == QfuBlock(e, d.h, i, data);
      } else {
        QfuFinalizeGood(e, d.h, bn);
        assert r.h == QfuFinalize(e, d.h, bn).0;
      }
    }
    KeepInv(e, d, r.core, r.h);
  }

  lemma UploadInv(e: Env, lay: Qfm.Layout, d: Device<Fm>, bn: nat, len: nat)
    requires bn < U16_LIMIT && len < U16_LIMIT && Inv(e, d)
    ensures Inv(e, ProcessUpload(Handlers(e, lay), d, bn, len).d)
  {
    var r := ProcessUpload(Handlers(e, lay), d, bn, len).d;
    UploadWorld(Handlers(e, lay), d, bn, len);
    KeepInv(e, d, r.core, r.h);
  }

  lemma StatusInv(e: Env, lay: Qfm.Layout, d: Device<Fm>)
    requires Inv(e, d)
    ensures Inv(e, GetStatus(Handlers(e, lay), d).0)
    ensures Inv(e, GetState(d).0)
  {
  }

  lemma ClrInv(e: Env, lay: Qfm.Layout, d: Device<Fm>)
    requires Inv(e, d)
    ensures Inv(e, ClrStatus(Handlers(e, lay), d).0)
  {
    if d.core.state == DfuError && d.core.alt != 0 {
      QfuClrAbortGood(e, d.h);
      assert ClrStatus(Handlers(e, lay), d).0.h == QfuRh(e).clrStatus(d.h);
    }
  }

  lemma AbortInv(e: Env, lay: Qfm.Layout, d: Device<Fm>)
    requires Inv(e, d)
    ensures Inv(e, Abort(Handlers(e, lay), d).0)
  {
    if d.core.state == DnloadIdle && d.core.alt != 0 {
      QfuClrAbortGood(e, d.h);
      assert Abort(Handlers(e, lay), d).0.h == QfuRh(e).abortDnloadXfer(d.h);
    }
  }

  /** Every request the transport can deliver keeps the invariant; in
      particular no handler ever halts the firmware manager. */
  lemma StepInv(e: Env, lay: Qfm.Layout, d: Device<Fm>, q: Request)
    requires RequestFits(q) && Deliverable(e, q) && Inv(e, d)
    ensures Inv(e, Run(e, lay, d, q))
  {
    StepReachable(Handlers(e, lay), Config.NumAltSettings(e.b), d, q);
    match q
    case SetAlt(alt) => SetAltInv(e, lay, d, alt);
    case Dnload(bn, data) =>
      if d.core.alt == 0 {
        DnloadQfmInv(e, lay, d, bn, data);
      } else {
        DnloadQfuInv(e, lay, d, bn, data);
      }
    case Upload(bn, len) => UploadInv(e, lay, d, bn, len);
    case GetStatusReq => StatusInv(e, lay, d);
    case GetStateReq => StatusInv(e, lay, d);
    case ClrStatusReq => ClrInv(e, lay, d);
    case AbortReq => AbortInv(e, lay, d);
  }

  /** A sequence of requests, one after the other. */
  function RunAll(e: Env, lay: Qfm.Layout, d: Device<Fm>, qs: seq<Request>): Device<Fm>
    requires forall i :: 0 <= i < |qs| ==> RequestFits(qs[i])
    decreases |qs|
  {
    if |qs| == 0 then d else RunAll(e, lay, Run(e, lay, d, qs[0]), qs[1..])
  }

  /** From a good start the firmware manager answers every request it is
      sent, however many: it is never halted. */
  lemma {:induction false} NeverHalts(e: Env, lay: Qfm.Layout, d: Device<Fm>, qs: seq<Request>)
    requires forall i :: 0 <= i < |qs| ==> RequestFits(qs[i]) && Deliverable(e, qs[i])
    requires Inv(e, d)
    ensures Inv(e, RunAll(e, lay, d, qs))
    ensures !RunAll(e, lay, d, qs).h.halted
    decreases |qs|
  {
    if |qs| > 0 {
      StepInv(e, lay, d, qs[0]);
      NeverHalts(e, lay, Run(e, lay, d, qs[0]), qs[1..]);
    }
  }

  /** A halted firmware manager stays as it is whatever it is sent. */
  lemma {:induction false} HaltedFrozen(e: Env, lay: Qfm.Layout, d: Device<Fm>, qs: seq<Request>)
    requires forall i :: 0 <= i < |qs| ==> RequestFits(qs[i])
    requires d.h.halted
    ensures RunAll(e, lay, d, qs) == d
    decreases |qs|
  {
    if |qs| > 0 {
      HaltedFrozen(e, lay, d, qs[1..]);
    }
  }

  /** Power-on: the ROM sanitizes BL-Data (rom_startup.c), then the
      transport calls dfu_init, which selects alternate setting 0. The QFU
      handler variables start zeroed. None when the section is
      compromised and sanitize does not return. */
  function Boot(e: Env, lay: Qfm.Layout, s: Store, m: Qfm.QfmState): (r: Option<Device<Fm>>)
    requires Valid(e) && StoreShape(e.b, s)
  {
    var s1 :- Sanitize(e.b, s, e.iv);
    var q := Qfu.QfuState(Ok, 0, Zeros(Config.HdrBufSize(e.b)));
    var d := Device(Core(DfuIdle, Ok, 0, 0, 0), Fm(s1, q, m, false));
    Some(SetAltSetting(Handlers(e, lay), Config.NumAltSettings(e.b), d, 0).0)
  }

  /** Booting halts exactly on a compromised section; otherwise, when
      every valid copy on flash names targets the build has, the machine
      starts in dfuIDLE on alternate setting 0 with the invariant, and so
      never halts afterwards. */
  lemma BootInv(e: Env, lay: Qfm.Layout, s: Store, m: Qfm.QfmState)
    requires Valid(e) && StoreShape(e.b, s)
    ensures Boot(e, lay, s, m).None? <==> Compromised(e.b, s)
    ensures Boot(e, lay, s, m).Some? && StoredIndexed(e.b, s) ==>
      var d := Boot(e, lay, s, m).value;
      Inv(e, d) && d.core.state == DfuIdle && d.core.status == Ok && d.core.alt == 0
  {
    SanitizeHaltsIff(e.b, s, e.iv);
    if Sanitize(e.b, s, e.iv).Some? {
      SanitizeSynced(e.b, s, e.iv);
      SanitizeIndexed(e.b, s, e.iv);
    }
  }
}

