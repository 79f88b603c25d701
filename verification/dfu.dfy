/** The USB DFU 1.1 status codes and device states (section 6.1.2 of the
    USB Device Firmware Upgrade specification, revision 1.1), as
    fw-manager/dfu/dfu.h numbers them, and the request-handler interface
    the DFU core drives. */
module Dfu {
  import opened Wrappers
  import opened Bytes

  /** dfu_dev_status_t */
  datatype Status =
    | Ok | ErrTarget | ErrFile | ErrWrite | ErrErase | ErrCheckErased | ErrProg
    | ErrVerify | ErrAddress | ErrNotDone | ErrFirmware | ErrVendor | ErrUsbr
    | ErrPor | ErrUnknown | ErrStalledPkt

  function StatusCode(s: Status): (c: nat)
    ensures c < 16
  {
    match s
    case Ok => 0x00
    case ErrTarget => 0x01
    case ErrFile => 0x02
    case ErrWrite => 0x03
    case ErrErase => 0x04
    case ErrCheckErased => 0x05
    case ErrProg => 0x06
    case ErrVerify => 0x07
    case ErrAddress => 0x08
    case ErrNotDone => 0x09
    case ErrFirmware => 0x0A
    case ErrVendor => 0x0B
    case ErrUsbr => 0x0C
    case ErrPor => 0x0D
    case ErrUnknown => 0x0E
    case ErrStalledPkt => 0x0F
  }

  /** The status a bStatus byte on the wire stands for. */
  function StatusOfCode(c: nat): (s: Option<Status>)
  {
    if c == 0x00 then Some(Ok)
    else if c == 0x01 then Some(ErrTarget)
    else if c == 0x02 then Some(ErrFile)
    else if c == 0x03 then Some(ErrWrite)
    else if c == 0x04 then Some(ErrErase)
    else if c == 0x05 then Some(ErrCheckErased)
    else if c == 0x06 then Some(ErrProg)
    else if c == 0x07 then Some(ErrVerify)
    else if c == 0x08 then Some(ErrAddress)
    else if c == 0x09 then Some(ErrNotDone)
    else if c == 0x0A then Some(ErrFirmware)
    else if c == 0x0B then Some(ErrVendor)
    else if c == 0x0C then Some(ErrUsbr)
    else if c == 0x0D then Some(ErrPor)
    else if c == 0x0E then Some(ErrUnknown)
    else if c == 0x0F then Some(ErrStalledPkt)
    else None
  }

  /** Every status has its own code, and the codes are exactly 0..15. */
  lemma StatusCodeRoundTrip(s: Status, c: nat)
    ensures StatusOfCode(StatusCode(s)) == Some(s)
    ensures StatusOfCode(c).Some? <==> c < 16
    ensures StatusOfCode(c).Some? ==> StatusCode(StatusOfCode(c).value) == c
  {
  }

  /** dfu_dev_state_t */
  datatype State =
    | AppIdle | AppDetach | DfuIdle | DnloadSync | DnBusy | DnloadIdle
    | ManifestSync | Manifest | ManifestWaitReset | UploadIdle | DfuError

  function StateCode(s: State): (c: nat)
    ensures c <= 10
  {
    match s
    case AppIdle => 0
    case AppDetach => 1
    case DfuIdle => 2
    case DnloadSync => 3
    case DnBusy => 4
    case DnloadIdle => 5
    case ManifestSync => 6
    case Manifest => 7
    case ManifestWaitReset => 8
    case UploadIdle => 9
    case DfuError => 10
  }

  lemma StateCodeInjective(s: State, t: State)
    ensures StateCode(s) == StateCode(t) <==> s == t
  {
  }

  /** dfu_request_handler_t over a handler state `H`: what the DFU core
      asks of the component behind the active alternate setting.
      - init: the alternate setting was selected;
      - getProcStatus: the status of the last block and the poll timeout;
      - clrStatus: DFU_CLRSTATUS after an error;
      - procDnloadBlk: a DNLOAD block, by its index in the transfer;
      - finDnloadXfer: the empty DNLOAD closing a transfer; true when the
        handler agrees (the C function returns 0);
      - fillUploadBlk: an UPLOAD block of at most `req_len` bytes; the
        number of bytes provided;
      - abortDnloadXfer: DFU_ABORT during a download. */
  datatype Handler<!H> = Handler(
    init: (H, nat) -> H,
    getProcStatus: H -> (Status, nat),
    clrStatus: H -> H,
    procDnloadBlk: (H, nat, Bytes) -> H,
    finDnloadXfer: (H, nat) -> (H, bool),
    fillUploadBlk: (H, nat, nat) -> (H, nat),
    abortDnloadXfer: H -> H
  )
}
