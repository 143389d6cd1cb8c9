/** Table-driven CRC-32 against the bit-serial register (src/common/crc32.c). */
module Crc32 {
  import opened Folding
  import opened Iteration
  import opened Lines
  import opened WordOps

  const POLYNOMIAL: bv32 := 0xedb8_8320

  function Pick(j: bv8, e0: bv32, e1: bv32, e2: bv32, e3: bv32, e4: bv32, e5: bv32, e6: bv32, e7: bv32): (e: bv32) {
    if j < 4 then (if j < 2 then (if j == 0 then e0 else e1) else if j == 2 then e2 else e3)
    else if j < 6 then (if j == 4 then e4 else e5) else if j == 6 then e6 else e7
  }

  /** crc32_table */
  function Table(i: bv8): (e: bv32) {
    if i < 0x08 then Pick(i & 7, 0x0000_0000, 0x7707_3096, 0xee0e_612c, 0x9909_51ba,
      0x076d_c419, 0x706a_f48f, 0xe963_a535, 0x9e64_95a3) else
    if i < 0x10 then Pick(i & 7, 0x0edb_8832, 0x79dc_b8a4, 0xe0d5_e91e, 0x97d2_d988,
      0x09b6_4c2b, 0x7eb1_7cbd, 0xe7b8_2d07, 0x90bf_1d91) else
    if i < 0x18 then Pick(i & 7, 0x1db7_1064, 0x6ab0_20f2, 0xf3b9_7148, 0x84be_41de,
      0x1ada_d47d, 0x6ddd_e4eb, 0xf4d4_b551, 0x83d3_85c7) else
    if i < 0x20 then Pick(i & 7, 0x136c_9856, 0x646b_a8c0, 0xfd62_f97a, 0x8a65_c9ec,
      0x1401_5c4f, 0x6306_6cd9, 0xfa0f_3d63, 0x8d08_0df5) else
    if i < 0x28 then Pick(i & 7, 0x3b6e_20c8, 0x4c69_105e, 0xd560_41e4, 0xa267_7172,
      0x3c03_e4d1, 0x4b04_d447, 0xd20d_85fd, 0xa50a_b56b) else
    if i < 0x30 then Pick(i & 7, 0x35b5_a8fa, 0x42b2_986c, 0xdbbb_c9d6, 0xacbc_f940,
      0x32d8_6ce3, 0x45df_5c75, 0xdcd6_0dcf, 0xabd1_3d59) else
    if i < 0x38 then Pick(i & 7, 0x26d9_30ac, 0x51de_003a, 0xc8d7_5180, 0xbfd0_6116,
      0x21b4_f4b5, 0x56b3_c423, 0xcfba_9599, 0xb8bd_a50f) else
    if i < 0x40 then Pick(i & 7, 0x2802_b89e, 0x5f05_8808, 0xc60c_d9b2, 0xb10b_e924,
      0x2f6f_7c87, 0x5868_4c11, 0xc161_1dab, 0xb666_2d3d) else
    if i < 0x48 then Pick(i & 7, 0x76dc_4190, 0x01db_7106, 0x98d2_20bc, 0xefd5_102a,
      0x71b1_8589, 0x06b6_b51f, 0x9fbf_e4a5, 0xe8b8_d433) else
    if i < 0x50 then Pick(i & 7, 0x7807_c9a2, 0x0f00_f934, 0x9609_a88e, 0xe10e_9818,
      0x7f6a_0dbb, 0x086d_3d2d, 0x9164_6c97, 0xe663_5c01) else
    if i < 0x58 then Pick(i & 7, 0x6b6b_51f4, 0x1c6c_6162, 0x8565_30d8, 0xf262_004e,
      0x6c06_95ed, 0x1b01_a57b, 0x8208_f4c1, 0xf50f_c457) else
    if i < 0x60 then Pick(i & 7, 0x65b0_d9c6, 0x12b7_e950, 0x8bbe_b8ea, 0xfcb9_887c,
      0x62dd_1ddf, 0x15da_2d49, 0x8cd3_7cf3, 0xfbd4_4c65) else
    if i < 0x68 then Pick(i & 7, 0x4db2_6158, 0x3ab5_51ce, 0xa3bc_0074, 0xd4bb_30e2,
      0x4adf_a541, 0x3dd8_95d7, 0xa4d1_c46d, 0xd3d6_f4fb) else
    if i < 0x70 then Pick(i & 7, 0x4369_e96a, 0x346e_d9fc, 0xad67_8846, 0xda60_b8d0,
      0x4404_2d73, 0x3303_1de5, 0xaa0a_4c5f, 0xdd0d_7cc9) else
    if i < 0x78 then Pick(i & 7, 0x5005_713c, 0x2702_41aa, 0xbe0b_1010, 0xc90c_2086,
      0x5768_b525, 0x206f_85b3, 0xb966_d409, 0xce61_e49f) else
    if i < 0x80 then Pick(i & 7, 0x5ede_f90e, 0x29d9_c998, 0xb0d0_9822, 0xc7d7_a8b4,
      0x59b3_3d17, 0x2eb4_0d81, 0xb7bd_5c3b, 0xc0ba_6cad) else
    if i < 0x88 then Pick(i & 7, 0xedb8_8320, 0x9abf_b3b6, 0x03b6_e20c, 0x74b1_d29a,
      0xead5_4739, 0x9dd2_77af, 0x04db_2615, 0x73dc_1683) else
    if i < 0x90 then Pick(i & 7, 0xe363_0b12, 0x9464_3b84, 0x0d6d_6a3e, 0x7a6a_5aa8,
      0xe40e_cf0b, 0x9309_ff9d, 0x0a00_ae27, 0x7d07_9eb1) else
    if i < 0x98 then Pick(i & 7, 0xf00f_9344, 0x8708_a3d2, 0x1e01_f268, 0x6906_c2fe,
      0xf762_575d, 0x8065_67cb, 0x196c_3671, 0x6e6b_06e7) else
    if i < 0xa0 then Pick(i & 7, 0xfed4_1b76, 0x89d3_2be0, 0x10da_7a5a, 0x67dd_4acc,
      0xf9b9_df6f, 0x8ebe_eff9, 0x17b7_be43, 0x60b0_8ed5) else
    if i < 0xa8 then Pick(i & 7, 0xd6d6_a3e8, 0xa1d1_937e, 0x38d8_c2c4, 0x4fdf_f252,
      0xd1bb_67f1, 0xa6bc_5767, 0x3fb5_06dd, 0x48b2_364b) else
    if i < 0xb0 then Pick(i & 7, 0xd80d_2bda, 0xaf0a_1b4c, 0x3603_4af6, 0x4104_7a60,
      0xdf60_efc3, 0xa867_df55, 0x316e_8eef, 0x4669_be79) else
    if i < 0xb8 then Pick(i & 7, 0xcb61_b38c, 0xbc66_831a, 0x256f_d2a0, 0x5268_e236,
      0xcc0c_7795, 0xbb0b_4703, 0x2202_16b9, 0x5505_262f) else
    if i < 0xc0 then Pick(i & 7, 0xc5ba_3bbe, 0xb2bd_0b28, 0x2bb4_5a92, 0x5cb3_6a04,
      0xc2d7_ffa7, 0xb5d0_cf31, 0x2cd9_9e8b, 0x5bde_ae1d) else
    if i < 0xc8 then Pick(i & 7, 0x9b64_c2b0, 0xec63_f226, 0x756a_a39c, 0x026d_930a,
      0x9c09_06a9, 0xeb0e_363f, 0x7207_6785, 0x0500_5713) else
    if i < 0xd0 then Pick(i & 7, 0x95bf_4a82, 0xe2b8_7a14, 0x7bb1_2bae, 0x0cb6_1b38,
      0x92d2_8e9b, 0xe5d5_be0d, 0x7cdc_efb7, 0x0bdb_df21) else
    if i < 0xd8 then Pick(i & 7, 0x86d3_d2d4, 0xf1d4_e242, 0x68dd_b3f8, 0x1fda_836e,
      0x81be_16cd, 0xf6b9_265b, 0x6fb0_77e1, 0x18b7_4777) else
    if i < 0xe0 then Pick(i & 7, 0x8808_5ae6, 0xff0f_6a70, 0x6606_3bca, 0x1101_0b5c,
      0x8f65_9eff, 0xf862_ae69, 0x616b_ffd3, 0x166c_cf45) else
    if i < 0xe8 then Pick(i & 7, 0xa00a_e278, 0xd70d_d2ee, 0x4e04_8354, 0x3903_b3c2,
      0xa767_2661, 0xd060_16f7, 0x4969_474d, 0x3e6e_77db) else
    if i < 0xf0 then Pick(i & 7, 0xaed1_6a4a, 0xd9d6_5adc, 0x40df_0b66, 0x37d8_3bf0,
      0xa9bc_ae53, 0xdebb_9ec5, 0x47b2_cf7f, 0x30b5_ffe9) else
    if i < 0xf8 then Pick(i & 7, 0xbdbd_f21c, 0xcaba_c28a, 0x53b3_9330, 0x24b4_a3a6,
      0xbad0_3605, 0xcdd7_0693, 0x54de_5729, 0x23d9_67bf) else
     Pick(i & 7, 0xb366_7a2e, 0xc461_4ab8, 0x5d68_1b02, 0x2a6f_2b94,
      0xb40b_be37, 0xc30c_8ea1, 0x5a05_df1b, 0x2d02_ef8d)
  }

  /** What the bit shifted out feeds back. */
  function Feedback(r: bv32): (f: bv32) {
    if r & 1 == 1 then POLYNOMIAL else 0
  }

  /** One clock of the shift register. */
  function Shift(r: bv32): (s: bv32) {
    (r >> 1) ^ Feedback(r)
  }

  lemma ShiftEven(x: bv32, y: bv32)
    requires x & 1 == 0
    ensures Shift(x ^ y) == Shift(x) ^ Shift(y)
  {
  }

  lemma ShiftOdd(x: bv32, y: bv32)
    requires x & 1 == 1
    ensures Shift(x ^ y) == Shift(x) ^ Shift(y)
  {
  }

  /** The register is linear over exclusive or. */
  lemma ShiftIsLinear()
    ensures Linear(Shift, Xor)
  {
    forall x, y ensures Shift(Xor(x, y)) == Xor(Shift(x), Shift(y)) {
      LowBit(x);
      if x & 1 == 0 { ShiftEven(x, y); } else { ShiftOdd(x, y); }
    }
  }

  lemma LowBit(x: bv32)
    ensures x & 1 == 0 || x & 1 == 1
  {
  }

  /** The polynomial has its top bit set, so no clock loses information. */
  lemma ShiftIsInjective()
    ensures Injective(Shift)
  {
    forall x, y | Shift(x) == Shift(y) ensures x == y {
      ShiftBack(x, y);
    }
  }

  lemma ShiftBack(x: bv32, y: bv32)
    requires Shift(x) == Shift(y)
    ensures x == y
  {
  }

  lemma Unrolled(i: bv8)
    ensures Table(i) == Shift(Shift(Shift(Shift(Shift(Shift(Shift(Shift(i as bv32))))))))
  {
  }

  lemma TableIs(i: bv8, n: nat)
    requires n == 8
    ensures Table(i) == Iterate(Shift, i as bv32, n)
  {
    Iterate8(Shift, i as bv32);
    Unrolled(i);
  }

  lemma ClearBits(h: bv32)
    requires h & 0xff == 0
    ensures Shift(Shift(Shift(Shift(Shift(Shift(Shift(Shift(h)))))))) == h >> 8
  {
  }

  /** Bits that do not reach the feedback tap only move. */
  lemma HighBits(h: bv32, n: nat)
    requires h & 0xff == 0 && n == 8
    ensures Iterate(Shift, h, n) == h >> 8
  {
    Iterate8(Shift, h);
    ClearBits(h);
  }

  function Upper(r: bv32): (u: bv32) {
    (r >> 8) & 0x00ff_ffff
  }

  /** The byte added at the low end of the register. */
  function Enter(r: bv32, b: bv8): (w: bv32) {
    r ^ b as bv32
  }

  function Index(r: bv32, b: bv8): (i: bv8) {
    (Enter(r, b) & 0xff) as bv8
  }

  /** The loop body of get_default_crc32_value. */
  function Step(table: bv8 -> bv32, r: bv32, b: bv8): (s: bv32) {
    Upper(r) ^ table(Index(r, b))
  }

  lemma StepIs(table: bv8 -> bv32, r: bv32, b: bv8, w: bv32, h: bv32, i: bv32)
    requires w == h ^ i && h == Upper(r) && i == table(Index(r, b))
    ensures Step(table, r, b) == w
  {
  }

  /** A byte clock: linear, a plain shift for the bits above the lowest byte, the table for that byte. */
  ghost predicate ByteClock(clock: bv32 -> bv32, table: bv8 -> bv32) {
    && Linear(clock, Xor)
    && (forall h | h & 0xff == 0 :: clock(h) == h >> 8)
    && forall i: bv8 :: table(i) == clock(i as bv32)
  }

  lemma AtSum(clock: bv32 -> bv32, x: bv32, y: bv32, w: bv32) returns (c: bv32, d: bv32, e: bv32)
    requires Linear(clock, Xor) && w == Xor(x, y)
    ensures c == clock(w) && d == clock(x) && e == clock(y) && c == Xor(d, e)
  {
    c, d, e := clock(Xor(x, y)), clock(x), clock(y);
  }

  lemma AtHigh(clock: bv32 -> bv32, table: bv8 -> bv32, h: bv32) returns (c: bv32)
    requires ByteClock(clock, table) && h & 0xff == 0
    ensures c == clock(h) && c == h >> 8
  {
    c := clock(h);
  }

  lemma AtLow(clock: bv32 -> bv32, table: bv8 -> bv32, i: bv8) returns (c: bv32)
    requires ByteClock(clock, table)
    ensures c == clock(i as bv32) && c == table(i)
  {
    c := table(i);
  }

  function High(r: bv32, b: bv8): (h: bv32) {
    Enter(r, b) & 0xffff_ff00
  }

  lemma HighIs(r: bv32, b: bv8)
    ensures High(r, b) & 0xff == 0 && High(r, b) >> 8 == Upper(r)
  {
  }

  lemma SumIs(r: bv32, b: bv8)
    ensures Enter(r, b) == Xor(High(r, b), Index(r, b) as bv32)
  {
  }

  lemma SumPart(clock: bv32 -> bv32, r: bv32, b: bv8) returns (c: bv32, d: bv32, e: bv32)
    requires Linear(clock, Xor)
    ensures c == clock(Enter(r, b)) && d == clock(High(r, b)) && e == clock(Index(r, b) as bv32)
    ensures c == Xor(d, e)
  {
    SumIs(r, b);
    c, d, e := AtSum(clock, High(r, b), Index(r, b) as bv32, Enter(r, b));
  }

  lemma HighPart(clock: bv32 -> bv32, table: bv8 -> bv32, r: bv32, b: bv8) returns (d: bv32)
    requires ByteClock(clock, table)
    ensures d == clock(High(r, b)) && d == Upper(r)
  {
    HighIs(r, b);
    d := AtHigh(clock, table, High(r, b));
  }

  lemma Values(clock: bv32 -> bv32, table: bv8 -> bv32, r: bv32, b: bv8) returns (c: bv32, d: bv32, e: bv32)
    requires ByteClock(clock, table)
    ensures c == clock(Enter(r, b)) && d == Upper(r) && e == table(Index(r, b)) && c == Xor(d, e)
  {
    c, d, e := SumPart(clock, r, b);
    var d' := HighPart(clock, table, r, b);
    var e' := AtLow(clock, table, Index(r, b));
  }

  /** One table look-up does the work of the clock. */
  lemma LooksUp(clock: bv32 -> bv32, table: bv8 -> bv32, r: bv32, b: bv8)
    requires ByteClock(clock, table)
    ensures Step(table, r, b) == clock(Enter(r, b))
  {
    var c, d, e := Values(clock, table, r, b);
    StepIs(table, r, b, c, d, e);
  }

  /** The register after a byte: eight clocks. */
  function Clock8(r: bv32): (s: bv32) {
    Iterate(Shift, r, 8)
  }

  lemma Clock8Linear()
    ensures Linear(Clock8, Xor)
  {
    forall x, y ensures Clock8(Xor(x, y)) == Xor(Clock8(x), Clock8(y)) {
      ShiftIsLinear();
      IterateLinear(Shift, Xor, x, y, 8);
    }
  }

  lemma Clock8High()
    ensures forall h: bv32 | h & 0xff == 0 :: Clock8(h) == h >> 8
  {
    forall h: bv32 | h & 0xff == 0 ensures Clock8(h) == h >> 8 {
      HighBits(h, 8);
    }
  }

  lemma Clock8Table()
    ensures forall i: bv8 :: Table(i) == Clock8(i as bv32)
  {
    forall i: bv8 ensures Table(i) == Clock8(i as bv32) {
      TableIs(i, 8);
    }
  }

  lemma Clock8Is()
    ensures ByteClock(Clock8, Table)
  {
    Clock8Linear();
    Clock8High();
    Clock8Table();
  }

  /** The loop body of get_default_crc32_value. */
  function TableStep(r: bv32, b: bv8): (s: bv32) {
    Step(Table, r, b)
  }

  /** The shift register: a byte is added at the low end and clocked through. */
  function ClockStep(clock: bv32 -> bv32): (step: (bv32, bv8) -> bv32) {
    (r: bv32, b: bv8) => clock(Enter(r, b))
  }

  lemma StepsAgree(clock: bv32 -> bv32, table: bv8 -> bv32)
    requires ByteClock(clock, table)
    ensures forall r, b :: Step(table, r, b) == ClockStep(clock)(r, b)
  {
    forall r, b ensures Step(table, r, b) == ClockStep(clock)(r, b) {
      LooksUp(clock, table, r, b);
    }
  }

  function Complement(x: bv32): (y: bv32) {
    x ^ 0xffff_ffff
  }

  lemma Twice(x: bv32)
    ensures Complement(Complement(x)) == x
  {
  }

  /** A CRC-32 with a start value: the register is complemented before and after. */
  function Checksum(step: (bv32, bv8) -> bv32, deft: bv32, buf: seq<bv8>): (crc: bv32) {
    Complement(Fold(step, Complement(deft), buf))
  }

  /** The bit-serial CRC-32. */
  function Crc(deft: bv32, buf: seq<bv8>): (crc: bv32) {
    Checksum(ClockStep(Clock8), deft, buf)
  }

  /** get_default_crc32_value computes the bit-serial CRC-32 of every buffer. */
  lemma TableIsSerial(deft: bv32, buf: seq<bv8>)
    ensures Checksum(TableStep, deft, buf) == Crc(deft, buf)
  {
    Clock8Is();
    StepsAgree(Clock8, Table);
    FoldSame(TableStep, ClockStep(Clock8), Complement(deft), buf);
  }

  /** The value of one piece is the start value for the next. */
  lemma ChecksumConcat(step: (bv32, bv8) -> bv32, deft: bv32, s: seq<bv8>, t: seq<bv8>)
    ensures Checksum(step, deft, s + t) == Checksum(step, Checksum(step, deft, s), t)
  {
    FoldConcat(step, Complement(deft), s, t);
    Twice(Fold(step, Complement(deft), s));
  }

  lemma ChecksumEmpty(step: (bv32, bv8) -> bv32, deft: bv32, buf: seq<bv8>)
    requires buf == []
    ensures Checksum(step, deft, buf) == deft
  {
    Twice(deft);
  }

  /** The loop of get_file_crc32_value over the pieces it reads. */
  function ChecksumOf(step: (bv32, bv8) -> bv32, deft: bv32, pieces: seq<seq<bv8>>): (crc: bv32)
    decreases |pieces|
  {
    if pieces == [] then deft else ChecksumOf(step, Checksum(step, deft, pieces[0]), pieces[1..])
  }

  /** Any partition of a buffer gives the value of the whole. */
  lemma {:induction false} AnyPartition(step: (bv32, bv8) -> bv32, deft: bv32, pieces: seq<seq<bv8>>)
    ensures ChecksumOf(step, deft, pieces) == Checksum(step, deft, Flatten(pieces))
    decreases |pieces|
  {
    if pieces == [] {
      ChecksumEmpty(step, deft, []);
    } else {
      AnyPartition(step, Checksum(step, deft, pieces[0]), pieces[1..]);
      ChecksumConcat(step, deft, pieces[0], Flatten(pieces[1..]));
    }
  }

  // ---------------------------------------------------------------- known values

  /** The digits 1 to 9, whose CRC-32 is the customary check value. */
  const DIGITS: seq<bv8> := [49, 50, 51, 52, 53, 54, 55, 56, 57]

  lemma EarlyDigits()
    ensures TableStep(0xffff_ffff, 49) == 0x7c23_1048
    ensures TableStep(0x7c23_1048, 50) == 0xb0ac_bb32
    ensures TableStep(0xb0ac_bb32, 51) == 0x77b7_9c2d
    ensures TableStep(0x77b7_9c2d, 52) == 0x641c_1f5c
    ensures TableStep(0x641c_1f5c, 53) == 0x340a_c5e3
  {
  }

  lemma LateDigits()
    ensures TableStep(0x340a_c5e3, 54) == 0xf68d_2c9e
    ensures TableStep(0xf68d_2c9e, 55) == 0xaffc_9660
    ensures TableStep(0xaffc_9660, 56) == 0x651f_2550
    ensures TableStep(0x651f_2550, 57) == 0x340b_c6d9
  {
  }

  lemma FoldNine<W, B>(f: (W, B) -> W, ws: seq<W>, bs: seq<B>)
    requires |bs| == 9 && |ws| == 10 && forall i | 0 <= i < 9 :: f(ws[i], bs[i]) == ws[i + 1]
    ensures Fold(f, ws[0], bs) == ws[9]
  {
    FoldAlong(f, ws, bs, 9);
    assert bs[..9] == bs;
  }

  lemma {:induction false} FoldAlong<W, B>(f: (W, B) -> W, ws: seq<W>, bs: seq<B>, n: nat)
    requires n <= |bs| < |ws| && forall i | 0 <= i < |bs| :: f(ws[i], bs[i]) == ws[i + 1]
    ensures Fold(f, ws[0], bs[..n]) == ws[n]
  {
    if n > 0 {
      FoldAlong(f, ws, bs, n - 1);
      assert bs[..n][..n - 1] == bs[..n - 1];
    }
  }

  lemma NineSteps(f: (bv32, bv8) -> bv32)
    requires f(0xffff_ffff, 49) == 0x7c23_1048
    requires f(0x7c23_1048, 50) == 0xb0ac_bb32
    requires f(0xb0ac_bb32, 51) == 0x77b7_9c2d
    requires f(0x77b7_9c2d, 52) == 0x641c_1f5c
    requires f(0x641c_1f5c, 53) == 0x340a_c5e3
    requires f(0x340a_c5e3, 54) == 0xf68d_2c9e
    requires f(0xf68d_2c9e, 55) == 0xaffc_9660
    requires f(0xaffc_9660, 56) == 0x651f_2550
    requires f(0x651f_2550, 57) == 0x340b_c6d9
    ensures Fold(f, 0xffff_ffff, DIGITS) == 0x340b_c6d9
  {
    var ws: seq<bv32> := [
      0xffff_ffff, 0x7c23_1048, 0xb0ac_bb32, 0x77b7_9c2d, 0x641c_1f5c, 0x340a_c5e3,
      0xf68d_2c9e, 0xaffc_9660, 0x651f_2550, 0x340b_c6d9];
    FoldNine(f, ws, DIGITS);
  }

  /** The check value of CRC-32. */
  lemma KnownValue()
    ensures Crc(0, DIGITS) == 0xcbf4_3926
  {
    EarlyDigits();
    LateDigits();
    NineSteps(TableStep);
    TableIsSerial(0, DIGITS);
    Ends();
  }

  lemma Ends()
    ensures Complement(0) == 0xffff_ffff && Complement(0x340b_c6d9) == 0xcbf4_3926
  {
  }

  // ---------------------------------------------------------------- the loops

  method TableLoop(r: bv32, buf: seq<bv8>) returns (crc: bv32)
    ensures crc == Fold(TableStep, r, buf)
  {
    crc := r;
    for i := 0 to |buf|
      invariant crc == Fold(TableStep, r, buf[..i])
    {
      assert buf[..i + 1][..i] == buf[..i];
      crc := TableStep(crc, buf[i]);
    }
    assert buf[..|buf|] == buf;
  }

  /** get_default_crc32_value */
  method GetDefaultCrc32Value(deft: bv32, buf: seq<bv8>) returns (crc: bv32)
    ensures crc == Crc(deft, buf)
  {
    crc := TableLoop(Complement(deft), buf);
    crc := Complement(crc);
    TableIsSerial(deft, buf);
  }

  lemma CrcOnward(content: seq<bv8>, at: nat, to: nat)
    requires at <= to <= |content|
    ensures Crc(0, content[..to]) == Crc(Crc(0, content[..at]), content[at..to])
  {
    assert content[..to] == content[..at] + content[at..to];
    ChecksumConcat(ClockStep(Clock8), 0, content[..at], content[at..to]);
  }

  const BUFF_SIZE := 16 * 1024

  /** One fread and what it adds to the value. */
  method NextPiece(content: seq<bv8>, at: nat, crc: bv32) returns (to: nat, crc': bv32)
    requires at < |content| && crc == Crc(0, content[..at])
    ensures at < to <= |content| && crc' == Crc(0, content[..to])
  {
    to := if |content| - at < BUFF_SIZE then |content| else at + BUFF_SIZE;
    CrcOnward(content, at, to);
    crc' := GetDefaultCrc32Value(crc, content[at..to]);
  }

  /** get_file_crc32_value of a file that can be opened. */
  method GetFileCrc32Value(content: seq<bv8>) returns (crc: bv32)
    ensures crc == Crc(0, content)
  {
    crc := 0;
    var at := 0;
    ChecksumEmpty(ClockStep(Clock8), 0, content[..0]);
    while at < |content|
      invariant at <= |content| && crc == Crc(0, content[..at])
    {
      at, crc := NextPiece(content, at, crc);
    }
    assert content[..at] == content;
  }
}
