/** What the CRC-32 of src/common/crc32.c detects: every change confined to four neighbouring bytes. */
module CrcBursts {
  import opened Crc32
  import opened Folding
  import opened Iteration
  import opened WordOps

  /** A difference before the clock. */
  function Up(g: bv32): (h: bv32) {
    g << 8
  }

  /** A difference before two bytes entered. */
  function Join(b: bv8, c: bv8, g: bv32): (h: bv32) {
    ((b ^ c) as bv32) ^ g
  }

  function Back(b: bv8, c: bv8, g: bv32): (h: bv32) {
    Join(b, c, Up(g))
  }

  /** All bits of g lie in its lowest k bytes. */
  predicate Spans(g: bv32, k: nat) {
    if k == 0 then g == 0
    else if k == 1 then g & 0xffff_ff00 == 0
    else if k == 2 then g & 0xffff_0000 == 0
    else k > 3 || g & 0xff00_0000 == 0
  }

  ghost function RegisterMetric(): (m: Metric<bv32, bv8>) {
    Metric(0, Xor, Back, Spans)
  }

  /** The polynomial has its top bit set, so no clock loses information. */
  lemma Clock8Injective()
    ensures Injective(Clock8)
  {
    forall x, y | Clock8(x) == Clock8(y) ensures x == y {
      ShiftIsInjective();
      IterateInjective(Shift, x, y, 8);
    }
  }

  lemma ShiftDown(g: bv32)
    requires g & 0xff00_0000 == 0
    ensures (g << 8) & 0xff == 0 && (g << 8) >> 8 == g
  {
  }

  /** A difference of three bytes after the clock was the same difference, one byte up, before it. */
  lemma ClockLifts(clock: bv32 -> bv32, table: bv8 -> bv32)
    requires ByteClock(clock, table) && Injective(clock)
    ensures Lifts(RegisterMetric(), clock, Up)
  {
    forall g | Spans(g, 3) ensures clock(Up(g)) == g {
      ShiftDown(g);
      var c := AtHigh(clock, table, Up(g));
    }
    LinearLifts(RegisterMetric(), clock, Up);
  }

  lemma Untangle(r: bv32, s: bv32, b: bv8, c: bv8)
    ensures r ^ s == ((b ^ c) as bv32) ^ ((r ^ b as bv32) ^ (s ^ c as bv32))
  {
  }

  lemma EnterJoins()
    ensures Joins(RegisterMetric(), Enter, Join)
  {
    forall r, s, b, c ensures Xor(r, s) == Join(b, c, Xor(Enter(r, b), Enter(s, c))) {
      Untangle(r, s, b, c);
    }
  }

  lemma RegisterTraces(clock: bv32 -> bv32, table: bv8 -> bv32)
    requires ByteClock(clock, table) && Injective(clock)
    ensures Traces(RegisterMetric(), ClockStep(clock))
  {
    ClockLifts(clock, table);
    EnterJoins();
    forall x ensures Xor(x, x) == 0 {
      Zero(x);
    }
    PartsTrace(RegisterMetric(), clock, Enter, ClockStep(clock), Up, Join);
  }

  lemma Zero(x: bv32)
    ensures x ^ x == 0
  {
  }

  lemma BackSpans(b: bv8, c: bv8, g: bv32)
    ensures Spans(g, 0) ==> Spans(Back(b, c, g), 1)
    ensures Spans(g, 1) ==> Spans(Back(b, c, g), 2)
    ensures Spans(g, 2) ==> Spans(Back(b, c, g), 3)
  {
  }

  lemma SpansMore(g: bv32, k: nat)
    requires k < 3 && Spans(g, k)
    ensures Spans(g, 3)
  {
    if k == 1 { NarrowByte(g); } else if k == 2 { NarrowHalf(g); }
  }

  lemma NarrowByte(g: bv32)
    requires g & 0xffff_ff00 == 0
    ensures g & 0xff00_0000 == 0
  {
  }

  lemma NarrowHalf(g: bv32)
    requires g & 0xffff_0000 == 0
    ensures g & 0xff00_0000 == 0
  {
  }

  lemma BackWidens()
    ensures forall b, c, g, k: nat | k < 3 && Spans(g, k) :: Spans(Back(b, c, g), k + 1)
  {
    forall b, c, g, k: nat | k < 3 && Spans(g, k) ensures Spans(Back(b, c, g), k + 1) {
      BackSpans(b, c, g);
    }
  }

  lemma SpansWiden()
    ensures forall g, k: nat | k < 3 && Spans(g, k) :: Spans(g, 3)
  {
    forall g, k: nat | k < 3 && Spans(g, k) ensures Spans(g, 3) {
      SpansMore(g, k);
    }
  }

  lemma RegisterWidens()
    ensures Widens(RegisterMetric())
  {
    BackWidens();
    SpansWiden();
  }

  lemma BackTells(b: bv8, c: bv8, g: bv32)
    requires Spans(g, 3) && Back(b, c, g) == 0
    ensures b == c && g == 0
  {
  }

  lemma RegisterTells()
    ensures Tells(RegisterMetric())
  {
    forall b, c, g | Spans(g, 3) && Back(b, c, g) == 0 ensures b == c && g == 0 {
      BackTells(b, c, g);
    }
  }

  lemma SameSum(x: bv32, y: bv32, b: bv8)
    requires x ^ b as bv32 == y ^ b as bv32
    ensures x == y
  {
  }

  lemma StepSeparates(clock: bv32 -> bv32)
    requires Injective(clock)
    ensures Separates(ClockStep(clock))
  {
    forall x, y, b | ClockStep(clock)(x, b) == ClockStep(clock)(y, b) ensures x == y {
      SameSum(x, y, b);
    }
  }

  lemma FoldsDetect(
    clock: bv32 -> bv32, table: bv8 -> bv32, r: bv32, p: seq<bv8>, u: seq<bv8>, v: seq<bv8>, q: seq<bv8>)
    requires ByteClock(clock, table) && Injective(clock) && |u| == |v| <= 4
    requires Fold(ClockStep(clock), r, p + u + q) == Fold(ClockStep(clock), r, p + v + q)
    ensures u == v
  {
    RegisterTraces(clock, table);
    RegisterWidens();
    RegisterTells();
    StepSeparates(clock);
    Detects(RegisterMetric(), ClockStep(clock), r, p, u, v, q);
  }

  /** Two buffers that differ only within four neighbouring bytes have the same value only if they are equal. */
  lemma BurstsAreDetected(deft: bv32, p: seq<bv8>, u: seq<bv8>, v: seq<bv8>, q: seq<bv8>)
    requires |u| == |v| <= 4
    ensures Crc(deft, p + u + q) == Crc(deft, p + v + q) <==> u == v
  {
    if Crc(deft, p + u + q) == Crc(deft, p + v + q) {
      Twice(Fold(ClockStep(Clock8), Complement(deft), p + u + q));
      Twice(Fold(ClockStep(Clock8), Complement(deft), p + v + q));
      Clock8Is();
      Clock8Injective();
      FoldsDetect(Clock8, Table, Complement(deft), p, u, v, q);
    }
  }

  lemma ZeroByteMoves()
    ensures TableStep(0xffff_ffff, 0) == 0x2dfd_1072
  {
  }

  lemma SerialStep(clock: bv32 -> bv32, table: bv8 -> bv32, r: bv32, b: bv8, w: bv32)
    requires ByteClock(clock, table) && Step(table, r, b) == w
    ensures ClockStep(clock)(r, b) == w
  {
    LooksUp(clock, table, r, b);
  }

  lemma FoldsDiffer<W(!new), B(!new)>(f: (W, B) -> W, r: W, b: B, s: seq<B>)
    requires Separates(f) && f(r, b) != r
    ensures Fold(f, r, [b] + s) != Fold(f, r, s)
  {
    assert ([b] + s)[1..] == s;
    FoldFirst(f, r, [b] + s);
    if Fold(f, f(r, b), s) == Fold(f, r, s) { FoldApart(f, f(r, b), r, s); }
  }

  /** A zero byte in front of a buffer always changes its value: the register does not start at zero. */
  lemma LeadingZeroShows(s: seq<bv8>)
    ensures Crc(0, [0] + s) != Crc(0, s)
  {
    var f := ClockStep(Clock8);
    Clock8Is();
    Clock8Injective();
    StepSeparates(Clock8);
    ZeroByteMoves();
    SerialStep(Clock8, Table, 0xffff_ffff, 0, 0x2dfd_1072);
    Ends();
    FoldsDiffer(f, 0xffff_ffff, 0, s);
    Twice(Fold(f, 0xffff_ffff, [0] + s));
    Twice(Fold(f, 0xffff_ffff, s));
  }
}
