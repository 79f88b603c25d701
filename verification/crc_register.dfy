/** The 16-bit register algebra behind `fm_crc16_ccitt`
    (fw-manager/fw-manager_utils.c): the code's shift-and-xor update of one
    byte is the textbook MSB-first CRC-16 step with polynomial 0x1021.
    Registers are 32-bit words whose upper half stays zero, as in the code.

    The proof keeps every bit-vector formula in a lemma about plain
    variables (`requires v == <formula>`, `ensures v == w`) and connects the
    lemmas through the functions only by equalities between variables. */
module CrcRegister {

  /** The xor-in of one byte: the code's first assignment to `data`. */
  function MixByte(crc: bv32, b: bv32): bv32 {
    crc ^ (b << 8)
  }

  /** The rest of the loop body of `fm_crc16_ccitt`, given `data` after the
      byte has been xored in: fold the polynomial in with shifts and mask
      back to 16 bits. */
  function Reduce(crc: bv32, data: bv32): bv32 {
    var d1 := (data >> 12) ^ (data >> 8);
    var d2 := d1 ^ ((d1 << 5) ^ (d1 << 12));
    ((crc << 8) ^ d2) & 0xffff
  }

  /** The register update of one loop iteration of `fm_crc16_ccitt`. */
  function RegisterStep(crc: bv32, b: bv32): bv32 {
    Reduce(crc, MixByte(crc, b))
  }

  /** One MSB-first shift of a 16-bit CRC register: shift left, and if the
      bit shifted out was set, xor in the polynomial 0x1021. */
  function ShiftBit(c: bv32): bv32 {
    if c & 0x8000 != 0 then ((c << 1) ^ 0x1021) & 0xffff else (c << 1) & 0xffff
  }

  /** Eight MSB-first shifts: one byte's worth of polynomial division. */
  function ShiftByte(c: bv32): bv32 {
    ShiftBit(ShiftBit(ShiftBit(ShiftBit(ShiftBit(ShiftBit(ShiftBit(ShiftBit(c))))))))
  }

  lemma UnfoldShiftBit(c: bv32)
    ensures ShiftBit(c) == if c & 0x8000 != 0 then ((c << 1) ^ 0x1021) & 0xffff else (c << 1) & 0xffff
  {
  }

  lemma UnfoldReduce(crc: bv32, data: bv32)
    ensures Reduce(crc, data) ==
      var d1 := (data >> 12) ^ (data >> 8);
      var d2 := d1 ^ ((d1 << 5) ^ (d1 << 12));
      ((crc << 8) ^ d2) & 0xffff
  {
  }

  /* After k shifts of a 16-bit register x (k <= 8), the register holds
     x << k reduced by the quotient q = (x >> (16 - k)) ^ (x >> (20 - k)):
     ((x << k) ^ q ^ (q << 5) ^ (q << 12)) & 0xffff (for k <= 4 the second
     term of q is zero). Stage k + 1 takes one shift from k to k + 1: e is
     the closed form for k, f the one for k + 1, c the register and d the
     register shifted once. */

  lemma Stage1(x: bv32, c: bv32, d: bv32, e: bv32, f: bv32)
    requires x <= 0xffff
    requires e == x
    requires c == e
    requires d == if c & 0x8000 != 0 then ((c << 1) ^ 0x1021) & 0xffff else (c << 1) & 0xffff
    requires f == ((x << 1) ^ (x >> 15) ^ ((x >> 15) << 5) ^ ((x >> 15) << 12)) & 0xffff
    ensures d == f
  {
    if c & 0x8000 != 0 {
      assert (c >> 15) & 1 == 1;
    } else {
      assert (c >> 15) & 1 == 0;
    }
  }

  lemma Stage2(x: bv32, c: bv32, d: bv32, e: bv32, f: bv32)
    requires x <= 0xffff
    requires e == ((x << 1) ^ (x >> 15) ^ ((x >> 15) << 5) ^ ((x >> 15) << 12)) & 0xffff
    requires c == e
    requires d == if c & 0x8000 != 0 then ((c << 1) ^ 0x1021) & 0xffff else (c << 1) & 0xffff
    requires f == ((x << 2) ^ (x >> 14) ^ ((x >> 14) << 5) ^ ((x >> 14) << 12)) & 0xffff
    ensures d == f
  {
    if c & 0x8000 != 0 {
      assert (c >> 15) & 1 == 1;
    } else {
      assert (c >> 15) & 1 == 0;
    }
  }

  lemma Stage3(x: bv32, c: bv32, d: bv32, e: bv32, f: bv32)
    requires x <= 0xffff
    requires e == ((x << 2) ^ (x >> 14) ^ ((x >> 14) << 5) ^ ((x >> 14) << 12)) & 0xffff
    requires c == e
    requires d == if c & 0x8000 != 0 then ((c << 1) ^ 0x1021) & 0xffff else (c << 1) & 0xffff
    requires f == ((x << 3) ^ (x >> 13) ^ ((x >> 13) << 5) ^ ((x >> 13) << 12)) & 0xffff
    ensures d == f
  {
    if c & 0x8000 != 0 {
      assert (c >> 15) & 1 == 1;
    } else {
      assert (c >> 15) & 1 == 0;
    }
  }

  lemma Stage4(x: bv32, c: bv32, d: bv32, e: bv32, f: bv32)
    requires x <= 0xffff
    requires e == ((x << 3) ^ (x >> 13) ^ ((x >> 13) << 5) ^ ((x >> 13) << 12)) & 0xffff
    requires c == e
    requires d == if c & 0x8000 != 0 then ((c << 1) ^ 0x1021) & 0xffff else (c << 1) & 0xffff
    requires f == ((x << 4) ^ (x >> 12) ^ ((x >> 12) << 5) ^ ((x >> 12) << 12)) & 0xffff
    ensures d == f
  {
    if c & 0x8000 != 0 {
      assert (c >> 15) & 1 == 1;
    } else {
      assert (c >> 15) & 1 == 0;
    }
  }

  lemma Stage5(x: bv32, c: bv32, d: bv32, e: bv32, f: bv32)
    requires x <= 0xffff
    requires e == ((x << 4) ^ (x >> 12) ^ ((x >> 12) << 5) ^ ((x >> 12) << 12)) & 0xffff
    requires c == e
    requires d == if c & 0x8000 != 0 then ((c << 1) ^ 0x1021) & 0xffff else (c << 1) & 0xffff
    requires f == ((x << 5) ^ ((x >> 11) ^ (x >> 15)) ^ (((x >> 11) ^ (x >> 15)) << 5) ^ (((x >> 11) ^ (x >> 15)) << 12)) & 0xffff
    ensures d == f
  {
    if c & 0x8000 != 0 {
      assert (c >> 15) & 1 == 1;
    } else {
      assert (c >> 15) & 1 == 0;
    }
  }

  lemma Stage6(x: bv32, c: bv32, d: bv32, e: bv32, f: bv32)
    requires x <= 0xffff
    requires e == ((x << 5) ^ ((x >> 11) ^ (x >> 15)) ^ (((x >> 11) ^ (x >> 15)) << 5) ^ (((x >> 11) ^ (x >> 15)) << 12)) & 0xffff
    requires c == e
    requires d == if c & 0x8000 != 0 then ((c << 1) ^ 0x1021) & 0xffff else (c << 1) & 0xffff
    requires f == ((x << 6) ^ ((x >> 10) ^ (x >> 14)) ^ (((x >> 10) ^ (x >> 14)) << 5) ^ (((x >> 10) ^ (x >> 14)) << 12)) & 0xffff
    ensures d == f
  {
    if c & 0x8000 != 0 {
      assert (c >> 15) & 1 == 1;
    } else {
      assert (c >> 15) & 1 == 0;
    }
  }

  lemma Stage7(x: bv32, c: bv32, d: bv32, e: bv32, f: bv32)
    requires x <= 0xffff
    requires e == ((x << 6) ^ ((x >> 10) ^ (x >> 14)) ^ (((x >> 10) ^ (x >> 14)) << 5) ^ (((x >> 10) ^ (x >> 14)) << 12)) & 0xffff
    requires c == e
    requires d == if c & 0x8000 != 0 then ((c << 1) ^ 0x1021) & 0xffff else (c << 1) & 0xffff
    requires f == ((x << 7) ^ ((x >> 9) ^ (x >> 13)) ^ (((x >> 9) ^ (x >> 13)) << 5) ^ (((x >> 9) ^ (x >> 13)) << 12)) & 0xffff
    ensures d == f
  {
    if c & 0x8000 != 0 {
      assert (c >> 15) & 1 == 1;
    } else {
      assert (c >> 15) & 1 == 0;
    }
  }

  lemma Stage8(x: bv32, c: bv32, d: bv32, e: bv32, f: bv32)
    requires x <= 0xffff
    requires e == ((x << 7) ^ ((x >> 9) ^ (x >> 13)) ^ (((x >> 9) ^ (x >> 13)) << 5) ^ (((x >> 9) ^ (x >> 13)) << 12)) & 0xffff
    requires c == e
    requires d == if c & 0x8000 != 0 then ((c << 1) ^ 0x1021) & 0xffff else (c << 1) & 0xffff
    requires f == ((x << 8) ^ ((x >> 8) ^ (x >> 12)) ^ (((x >> 8) ^ (x >> 12)) << 5) ^ (((x >> 8) ^ (x >> 12)) << 12)) & 0xffff
    ensures d == f
  {
    if c & 0x8000 != 0 {
      assert (c >> 15) & 1 == 1;
    } else {
      assert (c >> 15) & 1 == 0;
    }
  }

  /** Eight shifts of x, named c1 .. c8, end in the closed form e8. */
  lemma EightShifts(x: bv32, c1: bv32, c2: bv32, c3: bv32, c4: bv32, c5: bv32, c6: bv32, c7: bv32, c8: bv32, e8: bv32)
    requires x <= 0xffff
    requires c1 == if x & 0x8000 != 0 then ((x << 1) ^ 0x1021) & 0xffff else (x << 1) & 0xffff
    requires c2 == if c1 & 0x8000 != 0 then ((c1 << 1) ^ 0x1021) & 0xffff else (c1 << 1) & 0xffff
    requires c3 == if c2 & 0x8000 != 0 then ((c2 << 1) ^ 0x1021) & 0xffff else (c2 << 1) & 0xffff
    requires c4 == if c3 & 0x8000 != 0 then ((c3 << 1) ^ 0x1021) & 0xffff else (c3 << 1) & 0xffff
    requires c5 == if c4 & 0x8000 != 0 then ((c4 << 1) ^ 0x1021) & 0xffff else (c4 << 1) & 0xffff
    requires c6 == if c5 & 0x8000 != 0 then ((c5 << 1) ^ 0x1021) & 0xffff else (c5 << 1) & 0xffff
    requires c7 == if c6 & 0x8000 != 0 then ((c6 << 1) ^ 0x1021) & 0xffff else (c6 << 1) & 0xffff
    requires c8 == if c7 & 0x8000 != 0 then ((c7 << 1) ^ 0x1021) & 0xffff else (c7 << 1) & 0xffff
    requires e8 == ((x << 8) ^ ((x >> 8) ^ (x >> 12)) ^ (((x >> 8) ^ (x >> 12)) << 5) ^ (((x >> 8) ^ (x >> 12)) << 12)) & 0xffff
    ensures c8 == e8
  {
    var e1 := ((x << 1) ^ (x >> 15) ^ ((x >> 15) << 5) ^ ((x >> 15) << 12)) & 0xffff;
    var e2 := ((x << 2) ^ (x >> 14) ^ ((x >> 14) << 5) ^ ((x >> 14) << 12)) & 0xffff;
    var e3 := ((x << 3) ^ (x >> 13) ^ ((x >> 13) << 5) ^ ((x >> 13) << 12)) & 0xffff;
    var e4 := ((x << 4) ^ (x >> 12) ^ ((x >> 12) << 5) ^ ((x >> 12) << 12)) & 0xffff;
    var e5 := ((x << 5) ^ ((x >> 11) ^ (x >> 15)) ^ (((x >> 11) ^ (x >> 15)) << 5) ^ (((x >> 11) ^ (x >> 15)) << 12)) & 0xffff;
    var e6 := ((x << 6) ^ ((x >> 10) ^ (x >> 14)) ^ (((x >> 10) ^ (x >> 14)) << 5) ^ (((x >> 10) ^ (x >> 14)) << 12)) & 0xffff;
    var e7 := ((x << 7) ^ ((x >> 9) ^ (x >> 13)) ^ (((x >> 9) ^ (x >> 13)) << 5) ^ (((x >> 9) ^ (x >> 13)) << 12)) & 0xffff;
    Stage1(x, x, c1, x, e1);
    Stage2(x, c1, c2, e1, e2);
    Stage3(x, c2, c3, e2, e3);
    Stage4(x, c3, c4, e3, e4);
    Stage5(x, c4, c5, e4, e5);
    Stage6(x, c5, c6, e5, e6);
    Stage7(x, c6, c7, e6, e7);
    Stage8(x, c7, c8, e7, e8);
  }

  /** The code's reduction is the closed form for eight shifts in one go:
      d1 is the quotient q for k == 8, and d1 ^ (d1 << 5) ^ (d1 << 12) is
      q times the polynomial. It needs only the low byte of `crc` to agree
      with `data`, which the xor-in of a byte into the high half keeps. */
  lemma ReduceClosed(crc: bv32, x: bv32, r: bv32, e: bv32)
    requires crc <= 0xffff && x <= 0xffff
    requires (crc ^ x) & 0xff == 0
    requires r ==
      var d1 := (x >> 12) ^ (x >> 8);
      var d2 := d1 ^ ((d1 << 5) ^ (d1 << 12));
      ((crc << 8) ^ d2) & 0xffff
    requires e == ((x << 8) ^ ((x >> 8) ^ (x >> 12)) ^ (((x >> 8) ^ (x >> 12)) << 5) ^ (((x >> 8) ^ (x >> 12)) << 12)) & 0xffff
    ensures r == e
  {
  }

  /** Xoring a byte into the high half keeps 16 bits and the low byte. */
  lemma MixByteLowByte(crc: bv32, b: bv32)
    requires crc <= 0xffff && b <= 0xff
    ensures MixByte(crc, b) <= 0xffff
    ensures (crc ^ MixByte(crc, b)) & 0xff == 0
  {
  }

  /** The code's reduction of `data` is eight textbook shifts of `data`. */
  lemma ReduceIsShiftByte(crc: bv32, x: bv32)
    requires crc <= 0xffff && x <= 0xffff
    requires (crc ^ x) & 0xff == 0
    ensures Reduce(crc, x) == ShiftByte(x)
  {
    var e := ((x << 8) ^ ((x >> 8) ^ (x >> 12)) ^ (((x >> 8) ^ (x >> 12)) << 5) ^ (((x >> 8) ^ (x >> 12)) << 12)) & 0xffff;
    UnfoldReduce(crc, x);
    ReduceClosed(crc, x, Reduce(crc, x), e);
    var c1 := ShiftBit(x);
    UnfoldShiftBit(x);
    var c2 := ShiftBit(c1);
    UnfoldShiftBit(c1);
    var c3 := ShiftBit(c2);
    UnfoldShiftBit(c2);
    var c4 := ShiftBit(c3);
    UnfoldShiftBit(c3);
    var c5 := ShiftBit(c4);
    UnfoldShiftBit(c4);
    var c6 := ShiftBit(c5);
    UnfoldShiftBit(c5);
    var c7 := ShiftBit(c6);
    UnfoldShiftBit(c6);
    var c8 := ShiftBit(c7);
    UnfoldShiftBit(c7);
    EightShifts(x, c1, c2, c3, c4, c5, c6, c7, c8, e);
  }

  /** The code's byte step is the textbook step: xor the byte into the high
      half of the register and shift eight times. */
  lemma RegisterStepIsShiftByte(crc: bv32, b: bv32)
    requires crc <= 0xffff && b <= 0xff
    ensures RegisterStep(crc, b) == ShiftByte(MixByte(crc, b))
  {
    MixByteLowByte(crc, b);
    ReduceIsShiftByte(crc, MixByte(crc, b));
  }

  /** The update masks the register back to 16 bits. */
  lemma RegisterStepFits(crc: bv32, b: bv32)
    ensures RegisterStep(crc, b) <= 0xffff
  {
  }
}
