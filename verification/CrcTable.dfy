/**
  The lookup table of framework/src/mmutils/mmcrc.c and its check against the register
  that it tabulates, entry by entry.
 */
module CrcTable {

  /** A uint16_t by its bits. */
  datatype Word = Word(
    b15: bool, b14: bool, b13: bool, b12: bool, b11: bool, b10: bool, b9: bool, b8: bool,
    b7: bool, b6: bool, b5: bool, b4: bool, b3: bool, b2: bool, b1: bool, b0: bool)

  const ZERO: Word :=
    Word(false, false, false, false, false, false, false, false,
         false, false, false, false, false, false, false, false)

  function ToWord(v: bv16): Word {
    Word(v & 0x8000 != 0, v & 0x4000 != 0, v & 0x2000 != 0, v & 0x1000 != 0,
         v & 0x0800 != 0, v & 0x0400 != 0, v & 0x0200 != 0, v & 0x0100 != 0,
         v & 0x0080 != 0, v & 0x0040 != 0, v & 0x0020 != 0, v & 0x0010 != 0,
         v & 0x0008 != 0, v & 0x0004 != 0, v & 0x0002 != 0, v & 0x0001 != 0)
  }

  /** One bit `b` enters the register; the generator 0x1021 is subtracted when the bit
      leaving the register differs from it. */
  function ShiftIn(c: Word, b: bool): Word {
    var f := c.b15 != b;
    Word(c.b14, c.b13, c.b12, c.b11 != f, c.b10, c.b9, c.b8, c.b7,
         c.b6, c.b5, c.b4 != f, c.b3, c.b2, c.b1, c.b0, false != f)
  }

  // ----- The register on uint16_t -----

  /** acc * x + b * a */
  function Step(acc: bv16, a: bv16, b: bool): bv16 {
    (acc << 1) ^ (if acc & 0x8000 != 0 then 0x1021 else 0) ^ (if b then a else 0)
  }

  lemma Bit15(acc: bv16, a: bv16, b: bool)
    ensures Step(acc, a, b) & 0x8000 != 0 <==> (acc & 0x4000 != 0) != (b && a & 0x8000 != 0)
  {}

  lemma Bit14(acc: bv16, a: bv16, b: bool)
    ensures Step(acc, a, b) & 0x4000 != 0 <==> (acc & 0x2000 != 0) != (b && a & 0x4000 != 0)
  {}

  lemma Bit13(acc: bv16, a: bv16, b: bool)
    ensures Step(acc, a, b) & 0x2000 != 0 <==> (acc & 0x1000 != 0) != (b && a & 0x2000 != 0)
  {}

  lemma Bit12(acc: bv16, a: bv16, b: bool)
    ensures Step(acc, a, b) & 0x1000 != 0 <==> ((acc & 0x0800 != 0) != (acc & 0x8000 != 0)) != (b && a & 0x1000 != 0)
  {}

  lemma Bit11(acc: bv16, a: bv16, b: bool)
    ensures Step(acc, a, b) & 0x0800 != 0 <==> (acc & 0x0400 != 0) != (b && a & 0x0800 != 0)
  {}

  lemma Bit10(acc: bv16, a: bv16, b: bool)
    ensures Step(acc, a, b) & 0x0400 != 0 <==> (acc & 0x0200 != 0) != (b && a & 0x0400 != 0)
  {}

  lemma Bit9(acc: bv16, a: bv16, b: bool)
    ensures Step(acc, a, b) & 0x0200 != 0 <==> (acc & 0x0100 != 0) != (b && a & 0x0200 != 0)
  {}

  lemma Bit8(acc: bv16, a: bv16, b: bool)
    ensures Step(acc, a, b) & 0x0100 != 0 <==> (acc & 0x0080 != 0) != (b && a & 0x0100 != 0)
  {}

  lemma Bit7(acc: bv16, a: bv16, b: bool)
    ensures Step(acc, a, b) & 0x0080 != 0 <==> (acc & 0x0040 != 0) != (b && a & 0x0080 != 0)
  {}

  lemma Bit6(acc: bv16, a: bv16, b: bool)
    ensures Step(acc, a, b) & 0x0040 != 0 <==> (acc & 0x0020 != 0) != (b && a & 0x0040 != 0)
  {}

  lemma Bit5(acc: bv16, a: bv16, b: bool)
    ensures Step(acc, a, b) & 0x0020 != 0 <==> ((acc & 0x0010 != 0) != (acc & 0x8000 != 0)) != (b && a & 0x0020 != 0)
  {}

  lemma Bit4(acc: bv16, a: bv16, b: bool)
    ensures Step(acc, a, b) & 0x0010 != 0 <==> (acc & 0x0008 != 0) != (b && a & 0x0010 != 0)
  {}

  lemma Bit3(acc: bv16, a: bv16, b: bool)
    ensures Step(acc, a, b) & 0x0008 != 0 <==> (acc & 0x0004 != 0) != (b && a & 0x0008 != 0)
  {}

  lemma Bit2(acc: bv16, a: bv16, b: bool)
    ensures Step(acc, a, b) & 0x0004 != 0 <==> (acc & 0x0002 != 0) != (b && a & 0x0004 != 0)
  {}

  lemma Bit1(acc: bv16, a: bv16, b: bool)
    ensures Step(acc, a, b) & 0x0002 != 0 <==> (acc & 0x0001 != 0) != (b && a & 0x0002 != 0)
  {}

  lemma Bit0(acc: bv16, a: bv16, b: bool)
    ensures Step(acc, a, b) & 0x0001 != 0 <==> (false != (acc & 0x8000 != 0)) != (b && a & 0x0001 != 0)
  {}

  /** Bit by bit, what a step leaves. */
  ghost predicate Bits(acc: bv16, a: bv16, b: bool, next: Word) {
    && next.b15 == ((acc & 0x4000 != 0) != (b && a & 0x8000 != 0))
    && next.b14 == ((acc & 0x2000 != 0) != (b && a & 0x4000 != 0))
    && next.b13 == ((acc & 0x1000 != 0) != (b && a & 0x2000 != 0))
    && next.b12 == (((acc & 0x0800 != 0) != (acc & 0x8000 != 0)) != (b && a & 0x1000 != 0))
    && next.b11 == ((acc & 0x0400 != 0) != (b && a & 0x0800 != 0))
    && next.b10 == ((acc & 0x0200 != 0) != (b && a & 0x0400 != 0))
    && next.b9 == ((acc & 0x0100 != 0) != (b && a & 0x0200 != 0))
    && next.b8 == ((acc & 0x0080 != 0) != (b && a & 0x0100 != 0))
    && next.b7 == ((acc & 0x0040 != 0) != (b && a & 0x0080 != 0))
    && next.b6 == ((acc & 0x0020 != 0) != (b && a & 0x0040 != 0))
    && next.b5 == (((acc & 0x0010 != 0) != (acc & 0x8000 != 0)) != (b && a & 0x0020 != 0))
    && next.b4 == ((acc & 0x0008 != 0) != (b && a & 0x0010 != 0))
    && next.b3 == ((acc & 0x0004 != 0) != (b && a & 0x0008 != 0))
    && next.b2 == ((acc & 0x0002 != 0) != (b && a & 0x0004 != 0))
    && next.b1 == ((acc & 0x0001 != 0) != (b && a & 0x0002 != 0))
    && next.b0 == ((false != (acc & 0x8000 != 0)) != (b && a & 0x0001 != 0))
  }

  lemma StepBits(acc: bv16, a: bv16, b: bool, next: Word)
    requires next == ToWord(Step(acc, a, b))
    ensures Bits(acc, a, b, next)
  {
    Bit15(acc, a, b);
    Bit14(acc, a, b);
    Bit13(acc, a, b);
    Bit12(acc, a, b);
    Bit11(acc, a, b);
    Bit10(acc, a, b);
    Bit9(acc, a, b);
    Bit8(acc, a, b);
    Bit7(acc, a, b);
    Bit6(acc, a, b);
    Bit5(acc, a, b);
    Bit4(acc, a, b);
    Bit3(acc, a, b);
    Bit2(acc, a, b);
    Bit1(acc, a, b);
    Bit0(acc, a, b);
  }

  /** One bit enters the register. */
  function Shift(c: bv16, b: bool): bv16 {
    Step(c, 0x1021, b)
  }

  lemma ShiftForm(c: bv16, b: bool, p: Word, t: Word)
    requires p == ToWord(c) && t == ToWord(Shift(c, b))
    ensures ShiftIn(p, b) == t
  {
    StepBits(c, 0x1021, b, t);
    ShiftBits(c, b, p, t);
  }

  lemma ShiftBits(c: bv16, b: bool, p: Word, t: Word)
    requires p == ToWord(c) && Bits(c, 0x1021, b, t)
    ensures ShiftIn(p, b) == t
  {
    GeneratorBits(0x1021);
  }

  lemma GeneratorBits(g: bv16)
    requires g == 0x1021
    ensures g & 0x8000 == 0
    ensures g & 0x4000 == 0
    ensures g & 0x2000 == 0
    ensures g & 0x1000 != 0
    ensures g & 0x0800 == 0
    ensures g & 0x0400 == 0
    ensures g & 0x0200 == 0
    ensures g & 0x0100 == 0
    ensures g & 0x0080 == 0
    ensures g & 0x0040 == 0
    ensures g & 0x0020 != 0
    ensures g & 0x0010 == 0
    ensures g & 0x0008 == 0
    ensures g & 0x0004 == 0
    ensures g & 0x0002 == 0
    ensures g & 0x0001 != 0
  {}

  /** Four bits enter. */
  function Shift4(c: bv16, b3: bool, b2: bool, b1: bool, b0: bool): bv16 {
    Shift(Shift(Shift(Shift(c, b3), b2), b1), b0)
  }

  function Step4(next: (Word, bool) -> Word, c: Word, b3: bool, b2: bool, b1: bool, b0: bool): Word {
    next(next(next(next(c, b3), b2), b1), b0)
  }

  lemma Step4Form<S(!new)>(form: S -> Word, shift: (S, bool) -> S, next: (Word, bool) -> Word, c: S,
                           b3: bool, b2: bool, b1: bool, b0: bool)
    requires forall d: S, b: bool {:trigger shift(d, b)} :: next(form(d), b) == form(shift(d, b))
    ensures Step4(next, form(c), b3, b2, b1, b0) == form(shift(shift(shift(shift(c, b3), b2), b1), b0))
  {
    var c3 := shift(c, b3);
    var c2 := shift(c3, b2);
    var c1 := shift(c2, b1);
    assert next(form(c), b3) == form(c3) && next(form(c3), b2) == form(c2) && next(form(c2), b1) == form(c1);
  }

  lemma Shift4Form(c: bv16, b3: bool, b2: bool, b1: bool, b0: bool)
    ensures Step4(ShiftIn, ToWord(c), b3, b2, b1, b0) == ToWord(Shift4(c, b3, b2, b1, b0))
  {
    forall d: bv16, b: bool
      ensures ShiftIn(ToWord(d), b) == ToWord(Shift(d, b))
    {
      ShiftForm(d, b, ToWord(d), ToWord(Shift(d, b)));
    }
    Step4Form(ToWord, Shift, ShiftIn, c, b3, b2, b1, b0);
  }

  // ----- The table -----

  /** Sixteen values, picked by the four bits of their position. */
  datatype Sixteen<T> = Sixteen(
    e0: T, e1: T, e2: T, e3: T, e4: T, e5: T, e6: T, e7: T,
    e8: T, e9: T, e10: T, e11: T, e12: T, e13: T, e14: T, e15: T)
  {
    function At(b3: bool, b2: bool, b1: bool, b0: bool): T {
      if b3 then
        if b2 then
          if b1 then
            if b0 then e15 else e14
          else
            if b0 then e13 else e12
        else
          if b1 then
            if b0 then e11 else e10
          else
            if b0 then e9 else e8
      else
        if b2 then
          if b1 then
            if b0 then e7 else e6
          else
            if b0 then e5 else e4
        else
          if b1 then
            if b0 then e3 else e2
          else
            if b0 then e1 else e0
    }
  }

  const ROW_0: Sixteen<bv16> := Sixteen(
    0x0000, 0x1021, 0x2042, 0x3063, 0x4084, 0x50a5, 0x60c6, 0x70e7,
    0x8108, 0x9129, 0xa14a, 0xb16b, 0xc18c, 0xd1ad, 0xe1ce, 0xf1ef)
  const ROW_1: Sixteen<bv16> := Sixteen(
    0x1231, 0x0210, 0x3273, 0x2252, 0x52b5, 0x4294, 0x72f7, 0x62d6,
    0x9339, 0x8318, 0xb37b, 0xa35a, 0xd3bd, 0xc39c, 0xf3ff, 0xe3de)
  const ROW_2: Sixteen<bv16> := Sixteen(
    0x2462, 0x3443, 0x0420, 0x1401, 0x64e6, 0x74c7, 0x44a4, 0x5485,
    0xa56a, 0xb54b, 0x8528, 0x9509, 0xe5ee, 0xf5cf, 0xc5ac, 0xd58d)
  const ROW_3: Sixteen<bv16> := Sixteen(
    0x3653, 0x2672, 0x1611, 0x0630, 0x76d7, 0x66f6, 0x5695, 0x46b4,
    0xb75b, 0xa77a, 0x9719, 0x8738, 0xf7df, 0xe7fe, 0xd79d, 0xc7bc)
  const ROW_4: Sixteen<bv16> := Sixteen(
    0x48c4, 0x58e5, 0x6886, 0x78a7, 0x0840, 0x1861, 0x2802, 0x3823,
    0xc9cc, 0xd9ed, 0xe98e, 0xf9af, 0x8948, 0x9969, 0xa90a, 0xb92b)
  const ROW_5: Sixteen<bv16> := Sixteen(
    0x5af5, 0x4ad4, 0x7ab7, 0x6a96, 0x1a71, 0x0a50, 0x3a33, 0x2a12,
    0xdbfd, 0xcbdc, 0xfbbf, 0xeb9e, 0x9b79, 0x8b58, 0xbb3b, 0xab1a)
  const ROW_6: Sixteen<bv16> := Sixteen(
    0x6ca6, 0x7c87, 0x4ce4, 0x5cc5, 0x2c22, 0x3c03, 0x0c60, 0x1c41,
    0xedae, 0xfd8f, 0xcdec, 0xddcd, 0xad2a, 0xbd0b, 0x8d68, 0x9d49)
  const ROW_7: Sixteen<bv16> := Sixteen(
    0x7e97, 0x6eb6, 0x5ed5, 0x4ef4, 0x3e13, 0x2e32, 0x1e51, 0x0e70,
    0xff9f, 0xefbe, 0xdfdd, 0xcffc, 0xbf1b, 0xaf3a, 0x9f59, 0x8f78)
  const ROW_8: Sixteen<bv16> := Sixteen(
    0x9188, 0x81a9, 0xb1ca, 0xa1eb, 0xd10c, 0xc12d, 0xf14e, 0xe16f,
    0x1080, 0x00a1, 0x30c2, 0x20e3, 0x5004, 0x4025, 0x7046, 0x6067)
  const ROW_9: Sixteen<bv16> := Sixteen(
    0x83b9, 0x9398, 0xa3fb, 0xb3da, 0xc33d, 0xd31c, 0xe37f, 0xf35e,
    0x02b1, 0x1290, 0x22f3, 0x32d2, 0x4235, 0x5214, 0x6277, 0x7256)
  const ROW_A: Sixteen<bv16> := Sixteen(
    0xb5ea, 0xa5cb, 0x95a8, 0x8589, 0xf56e, 0xe54f, 0xd52c, 0xc50d,
    0x34e2, 0x24c3, 0x14a0, 0x0481, 0x7466, 0x6447, 0x5424, 0x4405)
  const ROW_B: Sixteen<bv16> := Sixteen(
    0xa7db, 0xb7fa, 0x8799, 0x97b8, 0xe75f, 0xf77e, 0xc71d, 0xd73c,
    0x26d3, 0x36f2, 0x0691, 0x16b0, 0x6657, 0x7676, 0x4615, 0x5634)
  const ROW_C: Sixteen<bv16> := Sixteen(
    0xd94c, 0xc96d, 0xf90e, 0xe92f, 0x99c8, 0x89e9, 0xb98a, 0xa9ab,
    0x5844, 0x4865, 0x7806, 0x6827, 0x18c0, 0x08e1, 0x3882, 0x28a3)
  const ROW_D: Sixteen<bv16> := Sixteen(
    0xcb7d, 0xdb5c, 0xeb3f, 0xfb1e, 0x8bf9, 0x9bd8, 0xabbb, 0xbb9a,
    0x4a75, 0x5a54, 0x6a37, 0x7a16, 0x0af1, 0x1ad0, 0x2ab3, 0x3a92)
  const ROW_E: Sixteen<bv16> := Sixteen(
    0xfd2e, 0xed0f, 0xdd6c, 0xcd4d, 0xbdaa, 0xad8b, 0x9de8, 0x8dc9,
    0x7c26, 0x6c07, 0x5c64, 0x4c45, 0x3ca2, 0x2c83, 0x1ce0, 0x0cc1)
  const ROW_F: Sixteen<bv16> := Sixteen(
    0xef1f, 0xff3e, 0xcf5d, 0xdf7c, 0xaf9b, 0xbfba, 0x8fd9, 0x9ff8,
    0x6e17, 0x7e36, 0x4e55, 0x5e74, 0x2e93, 0x3eb2, 0x0ed1, 0x1ef0)
  /** crc16_xmodem_lookup_table: the entry for an index is found by the index's bits. */
  const TABLE: Sixteen<Sixteen<bv16>> := Sixteen(
    ROW_0, ROW_1, ROW_2, ROW_3, ROW_4, ROW_5, ROW_6, ROW_7,
    ROW_8, ROW_9, ROW_A, ROW_B, ROW_C, ROW_D, ROW_E, ROW_F)

  /** The row of what `four` makes of c and four more bits. */
  ghost predicate RowGood(row: Sixteen<bv16>, c: bv16, four: (bv16, bool, bool, bool, bool) -> bv16) {
    && row.e0 == four(c, false, false, false, false)
    && row.e1 == four(c, false, false, false, true)
    && row.e2 == four(c, false, false, true, false)
    && row.e3 == four(c, false, false, true, true)
    && row.e4 == four(c, false, true, false, false)
    && row.e5 == four(c, false, true, false, true)
    && row.e6 == four(c, false, true, true, false)
    && row.e7 == four(c, false, true, true, true)
    && row.e8 == four(c, true, false, false, false)
    && row.e9 == four(c, true, false, false, true)
    && row.e10 == four(c, true, false, true, false)
    && row.e11 == four(c, true, false, true, true)
    && row.e12 == four(c, true, true, false, false)
    && row.e13 == four(c, true, true, false, true)
    && row.e14 == four(c, true, true, true, false)
    && row.e15 == four(c, true, true, true, true)
  }

  lemma RowGoodAt(row: Sixteen<bv16>, c: bv16, four: (bv16, bool, bool, bool, bool) -> bv16,
                  b3: bool, b2: bool, b1: bool, b0: bool)
    requires RowGood(row, c, four)
    ensures row.At(b3, b2, b1, b0) == four(c, b3, b2, b1, b0)
  {}

  lemma Row0Good()
    ensures RowGood(ROW_0, Shift4(0, false, false, false, false), Shift4)
  {}

  lemma Row1Good()
    ensures RowGood(ROW_1, Shift4(0, false, false, false, true), Shift4)
  {}

  lemma Row2Good()
    ensures RowGood(ROW_2, Shift4(0, false, false, true, false), Shift4)
  {}

  lemma Row3Good()
    ensures RowGood(ROW_3, Shift4(0, false, false, true, true), Shift4)
  {}

  lemma Row4Good()
    ensures RowGood(ROW_4, Shift4(0, false, true, false, false), Shift4)
  {}

  lemma Row5Good()
    ensures RowGood(ROW_5, Shift4(0, false, true, false, true), Shift4)
  {}

  lemma Row6Good()
    ensures RowGood(ROW_6, Shift4(0, false, true, true, false), Shift4)
  {}

  lemma Row7Good()
    ensures RowGood(ROW_7, Shift4(0, false, true, true, true), Shift4)
  {}

  lemma Row8Good()
    ensures RowGood(ROW_8, Shift4(0, true, false, false, false), Shift4)
  {}

  lemma Row9Good()
    ensures RowGood(ROW_9, Shift4(0, true, false, false, true), Shift4)
  {}

  lemma RowAGood()
    ensures RowGood(ROW_A, Shift4(0, true, false, true, false), Shift4)
  {}

  lemma RowBGood()
    ensures RowGood(ROW_B, Shift4(0, true, false, true, true), Shift4)
  {}

  lemma RowCGood()
    ensures RowGood(ROW_C, Shift4(0, true, true, false, false), Shift4)
  {}

  lemma RowDGood()
    ensures RowGood(ROW_D, Shift4(0, true, true, false, true), Shift4)
  {}

  lemma RowEGood()
    ensures RowGood(ROW_E, Shift4(0, true, true, true, false), Shift4)
  {}

  lemma RowFGood()
    ensures RowGood(ROW_F, Shift4(0, true, true, true, true), Shift4)
  {}

  lemma TableHalf0(b6: bool, b5: bool, b4: bool)
    ensures RowGood(TABLE.At(false, b6, b5, b4), Shift4(0, false, b6, b5, b4), Shift4)
  {
    if b6 {
      if b5 {
        if b4 { Row7Good(); } else { Row6Good(); }
      } else {
        if b4 { Row5Good(); } else { Row4Good(); }
      }
    } else {
      if b5 {
        if b4 { Row3Good(); } else { Row2Good(); }
      } else {
        if b4 { Row1Good(); } else { Row0Good(); }
      }
    }
  }

  lemma TableHalf1(b6: bool, b5: bool, b4: bool)
    ensures RowGood(TABLE.At(true, b6, b5, b4), Shift4(0, true, b6, b5, b4), Shift4)
  {
    if b6 {
      if b5 {
        if b4 { RowFGood(); } else { RowEGood(); }
      } else {
        if b4 { RowDGood(); } else { RowCGood(); }
      }
    } else {
      if b5 {
        if b4 { RowBGood(); } else { RowAGood(); }
      } else {
        if b4 { Row9Good(); } else { Row8Good(); }
      }
    }
  }

  lemma TableRowGood(b7: bool, b6: bool, b5: bool, b4: bool)
    ensures RowGood(TABLE.At(b7, b6, b5, b4), Shift4(0, b7, b6, b5, b4), Shift4)
  {
    if b7 { TableHalf1(b6, b5, b4); } else { TableHalf0(b6, b5, b4); }
  }

  /** The table entry whose index has the bits b7, ..., b0 is what the register makes of
      those bits. */
  method Lookup(b7: bool, b6: bool, b5: bool, b4: bool, b3: bool, b2: bool, b1: bool, b0: bool)
    returns (v: bv16)
    ensures ToWord(v) == Step4(ShiftIn, Step4(ShiftIn, ZERO, b7, b6, b5, b4), b3, b2, b1, b0)
  {
    var row := TABLE.At(b7, b6, b5, b4);
    TableRowGood(b7, b6, b5, b4);
    var c := Shift4(0, b7, b6, b5, b4);
    RowGoodAt(row, c, Shift4, b3, b2, b1, b0);
    v := row.At(b3, b2, b1, b0);
    EntryForm(c, b7, b6, b5, b4, b3, b2, b1, b0, v);
  }

  lemma EntryForm(c: bv16, b7: bool, b6: bool, b5: bool, b4: bool, b3: bool, b2: bool, b1: bool, b0: bool, v: bv16)
    requires c == Shift4(0, b7, b6, b5, b4) && v == Shift4(c, b3, b2, b1, b0)
    ensures ToWord(v) == Step4(ShiftIn, Step4(ShiftIn, ZERO, b7, b6, b5, b4), b3, b2, b1, b0)
  {
    Shift4Form(0, b7, b6, b5, b4);
    Shift4Form(c, b3, b2, b1, b0);
    assert ToWord(0) == ZERO;
  }
}
