/** The firmware manager's CRC-16 and the default-key test
    (fw-manager/fw-manager_utils.c). */
module FwManagerUtils {
  import opened Bytes
  import opened CrcRegister

  /** One byte of the CRC as the code computes it. */
  function Step(crc: bv32, b: byte): bv32 {
    RegisterStep(crc, b as bv32)
  }

  /** The textbook byte step: xor the byte into the high half of the 16-bit
      register, then eight MSB-first shift/xor steps with polynomial 0x1021. */
  function BitwiseStep(crc: bv32, b: byte): bv32 {
    ShiftByte(MixByte(crc, b as bv32))
  }

  lemma ByteFitsBv(b: byte)
    ensures b as bv32 <= 0xff
  {
  }

  /** The code's byte step keeps the register within 16 bits and equals the
      bitwise CRC-16 step. */
  lemma StepIsBitwise(crc: bv32, b: byte)
    requires crc <= 0xffff
    ensures Step(crc, b) <= 0xffff
    ensures Step(crc, b) == BitwiseStep(crc, b)
  {
    ByteFitsBv(b);
    RegisterStepIsShiftByte(crc, b as bv32);
  }

  /** The CRC register after folding the bytes of `s`, starting from `init`. */
  function CrcFrom(init: bv32, s: Bytes): bv32
    decreases |s|
  {
    if s == [] then init else Step(CrcFrom(init, s[..|s| - 1]), s[|s| - 1])
  }

  /** The reference CRC: the same fold with the bitwise step. */
  function BitwiseCrcFrom(init: bv32, s: Bytes): bv32
    decreases |s|
  {
    if s == [] then init else BitwiseStep(BitwiseCrcFrom(init, s[..|s| - 1]), s[|s| - 1])
  }

  /** `fm_crc16_ccitt`: the register starts at 0, so this is CRC-16/XMODEM;
      the value always fits in 16 bits. */
  function Crc16(s: Bytes): (r: bv32)
    ensures r == BitwiseCrcFrom(0, s)
    ensures r <= 0xffff
  {
    CrcFromIsBitwise(0, s);
    CrcFrom(0, s)
  }

  lemma {:induction false} CrcFromIsBitwise(init: bv32, s: Bytes)
    requires init <= 0xffff
    ensures CrcFrom(init, s) == BitwiseCrcFrom(init, s)
    ensures CrcFrom(init, s) <= 0xffff
    decreases |s|
  {
    if s != [] {
      CrcFromIsBitwise(init, s[..|s| - 1]);
      StepIsBitwise(CrcFrom(init, s[..|s| - 1]), s[|s| - 1]);
    }
  }

  /** The CRC is a left fold: the CRC of `a + b` continues from the register
      value left after `a`. */
  lemma {:induction false} CrcAppend(init: bv32, a: Bytes, b: Bytes)
    ensures CrcFrom(init, a + b) == CrcFrom(CrcFrom(init, a), b)
    decreases |b|
  {
    if b == [] {
      assert a + b == a;
    } else {
      var ab := a + b;
      assert ab[..|ab| - 1] == a + b[..|b| - 1];
      assert ab[|ab| - 1] == b[|b| - 1];
      CrcAppend(init, a, b[..|b| - 1]);
    }
  }

  /** The empty input leaves the initial register value 0. */
  lemma CrcOfEmpty()
    ensures Crc16([]) == 0
  {
  }

  /** Appending one byte applies one step to the register. */
  lemma CrcSnoc(init: bv32, s: Bytes, b: byte)
    ensures CrcFrom(init, s + [b]) == Step(CrcFrom(init, s), b)
  {
    assert (s + [b])[..|s|] == s;
  }

  /** The register after each byte of "123456789", starting from 0. */
  lemma XmodemSteps()
    ensures Step(0, 0x31) == 0x2672
    ensures Step(0x2672, 0x32) == 0x20b5
    ensures Step(0x20b5, 0x33) == 0x9752
    ensures Step(0x9752, 0x34) == 0xd789
    ensures Step(0xd789, 0x35) == 0x546c
    ensures Step(0x546c, 0x36) == 0x20e4
    ensures Step(0x20e4, 0x37) == 0x86d6
    ensures Step(0x86d6, 0x38) == 0x9015
    ensures Step(0x9015, 0x39) == 0x31c3
  {
  }

  /** The register after each byte of "123456789", starting from 0xFFFF. */
  lemma InitFfffSteps()
    ensures Step(0xffff, 0x31) == 0xc782
    ensures Step(0xc782, 0x32) == 0x3dba
    ensures Step(0x3dba, 0x33) == 0x5bce
    ensures Step(0x5bce, 0x34) == 0x5349
    ensures Step(0x5349, 0x35) == 0x4560
    ensures Step(0x4560, 0x36) == 0x2ef4
    ensures Step(0x2ef4, 0x37) == 0x7718
    ensures Step(0x7718, 0x38) == 0xa12b
    ensures Step(0xa12b, 0x39) == 0x29b1
  {
  }

  /** The standard check input "123456789" gives 0x31C3, the CRC-16/XMODEM
      check value. */
  lemma XmodemCheckValue()
    ensures Crc16([0x31, 0x32, 0x33, 0x34, 0x35, 0x36, 0x37, 0x38, 0x39]) == 0x31C3
  {
    XmodemSteps();
    var s: Bytes := [];
    CrcSnoc(0, s, 0x31);
    s := s + [0x31];
    CrcSnoc(0, s, 0x32);
    s := s + [0x32];
    CrcSnoc(0, s, 0x33);
    s := s + [0x33];
    CrcSnoc(0, s, 0x34);
    s := s + [0x34];
    CrcSnoc(0, s, 0x35);
    s := s + [0x35];
    CrcSnoc(0, s, 0x36);
    s := s + [0x36];
    CrcSnoc(0, s, 0x37);
    s := s + [0x37];
    CrcSnoc(0, s, 0x38);
    s := s + [0x38];
    CrcSnoc(0, s, 0x39);
    s := s + [0x39];
    assert s == [0x31, 0x32, 0x33, 0x34, 0x35, 0x36, 0x37, 0x38, 0x39];
  }

  /** Starting the register at 0xFFFF, the initial value the declaration
      comment of `fm_crc16_ccitt` names, would give 0x29B1 on the same
      input: the code's initial value 0 is what makes it CRC-16/XMODEM. */
  lemma InitFfffCheckValue()
    ensures CrcFrom(0xffff, [0x31, 0x32, 0x33, 0x34, 0x35, 0x36, 0x37, 0x38, 0x39]) == 0x29B1
  {
    InitFfffSteps();
    var s: Bytes := [];
    CrcSnoc(0xffff, s, 0x31);
    s := s + [0x31];
    CrcSnoc(0xffff, s, 0x32);
    s := s + [0x32];
    CrcSnoc(0xffff, s, 0x33);
    s := s + [0x33];
    CrcSnoc(0xffff, s, 0x34);
    s := s + [0x34];
    CrcSnoc(0xffff, s, 0x35);
    s := s + [0x35];
    CrcSnoc(0xffff, s, 0x36);
    s := s + [0x36];
    CrcSnoc(0xffff, s, 0x37);
    s := s + [0x37];
    CrcSnoc(0xffff, s, 0x38);
    s := s + [0x38];
    CrcSnoc(0xffff, s, 0x39);
    s := s + [0x39];
    assert s == [0x31, 0x32, 0x33, 0x34, 0x35, 0x36, 0x37, 0x38, 0x39];
  }

  /** `fm_crc16_ccitt` as written: a 32-bit register starting at 0, one
      masked update per byte, truncated to 16 bits on return. */
  method FmCrc16Ccitt(data: Bytes) returns (r: bv16)
    ensures r as bv32 == BitwiseCrcFrom(0, data)
  {
    var crc: bv32 := 0;
    var i := 0;
    while i < |data|
      invariant 0 <= i <= |data|
      invariant crc <= 0xffff
      invariant crc == CrcFrom(0, data[..i])
    {
      assert data[..i + 1][..i] == data[..i];
      StepIsBitwise(crc, data[i]);
      crc := RegisterStep(crc, data[i] as bv32);
      i := i + 1;
    }
    assert data[..i] == data;
    CrcFromIsBitwise(0, data);
    r := crc as bv16;
  }

  /** True when every byte of the key is 0x00, the unprovisioned value. */
  predicate IsZeroKey(key: Digest) {
    forall j :: 0 <= j < 32 ==> key[j] == 0
  }

  /** `fm_hmac_is_default_key`: scans the key as eight little-endian 32-bit
      words and stops at the first non-zero one. */
  method FmHmacIsDefaultKey(key: Digest) returns (isDefault: bool)
    ensures isDefault <==> IsZeroKey(key)
  {
    var i := 0;
    while i < 8
      invariant 0 <= i <= 8
      invariant forall j :: 0 <= j < 4 * i ==> key[j] == 0
    {
      Le32ZeroIff(key, 4 * i);
      if ReadLe32(key, 4 * i) != 0 {
        return false;
      }
      i := i + 1;
    }
    return true;
  }
}
