/** Bob Jenkins' hash of a key in memory of either byte order (src/common/jenkins_hash.c). */
module Jenkins {
  import opened Folding
  import opened Mixing
  import opened MixingLoops
  import opened WordOps

  /** Of the machine, and of the branch that was compiled. */
  datatype Order = Little | Big

  function Add(x: bv32, y: bv32): (z: bv32) {
    x + y
  }

  function Sub(x: bv32, y: bv32): (z: bv32) {
    x - y
  }

  function And(x: bv32, y: bv32): (z: bv32) {
    x & y
  }

  /** The rot macro. */
  function Rot(x: bv32, k: nat): (r: bv32) {
    if 0 < k < 32 then (x << k) ^ (x >> (32 - k)) else x
  }

  function Words(): (o: Ops<bv32>) {
    Ops(Add, Sub, Xor, Rot)
  }

  lemma AfterAdd(x: bv32, y: bv32)
    ensures Sub(x + y, y) == x && Sub(x + y, x) == y
  {
  }

  lemma AfterSub(x: bv32, y: bv32)
    ensures Add(x - y, y) == x
  {
  }

  lemma AfterXor(x: bv32, y: bv32)
    ensures Xor(x ^ y, y) == x
  {
  }

  lemma SubAdd(x: bv32, y: bv32)
    ensures Sub(Add(x, y), y) == x && Sub(Add(x, y), x) == y
  {
    AfterAdd(x, y);
  }

  lemma AddSub(x: bv32, y: bv32)
    ensures Add(Sub(x, y), y) == x
  {
    AfterSub(x, y);
  }

  lemma XorXor(x: bv32, y: bv32)
    ensures Xor(Xor(x, y), y) == x
  {
    AfterXor(x, y);
  }

  lemma WordsAreLawful()
    ensures Lawful(Words())
  {
    forall x: bv32, y: bv32 ensures Sub(Add(x, y), y) == x && Sub(Add(x, y), x) == y {
      SubAdd(x, y);
    }
    forall x: bv32, y: bv32 ensures Add(Sub(x, y), y) == x {
      AddSub(x, y);
    }
    forall x: bv32, y: bv32 ensures Xor(Xor(x, y), y) == x {
      XorXor(x, y);
    }
  }

  /** What the byte-wise branch adds for a word of which m bytes belong to the key. */
  function Sum(o: Order, b0: bv8, b1: bv8, b2: bv8, b3: bv8, m: nat): (w: bv32) {
    match o
    case Little =>
      if m == 1 then ((b0 as bv32) << 0)
      else if m == 2 then ((b0 as bv32) << 0) + ((b1 as bv32) << 8)
      else if m == 3 then ((b0 as bv32) << 0) + ((b1 as bv32) << 8) + ((b2 as bv32) << 16)
      else ((b0 as bv32) << 0) + ((b1 as bv32) << 8) + ((b2 as bv32) << 16) + ((b3 as bv32) << 24)
    case Big =>
      if m == 1 then ((b0 as bv32) << 24)
      else if m == 2 then ((b0 as bv32) << 24) + ((b1 as bv32) << 16)
      else if m == 3 then ((b0 as bv32) << 24) + ((b1 as bv32) << 16) + ((b2 as bv32) << 8)
      else ((b0 as bv32) << 24) + ((b1 as bv32) << 16) + ((b2 as bv32) << 8) + ((b3 as bv32) << 0)
  }

  /** An aligned 32-bit read. */
  function Load(o: Order, b0: bv8, b1: bv8, b2: bv8, b3: bv8): (w: bv32) {
    match o
    case Little => ((b0 as bv32) << 0) | ((b1 as bv32) << 8) | ((b2 as bv32) << 16) | ((b3 as bv32) << 24)
    case Big => ((b0 as bv32) << 24) | ((b1 as bv32) << 16) | ((b2 as bv32) << 8) | ((b3 as bv32) << 0)
  }

  /** The masks of the last block. */
  function Mask(o: Order, m: nat): (w: bv32) {
    match o
    case Little =>
      if m == 1 then 0xff else if m == 2 then 0xffff else if m == 3 then 0xff_ffff else 0xffff_ffff
    case Big =>
      if m == 1 then 0xff00_0000 else if m == 2 then 0xffff_0000 else if m == 3 then 0xffff_ff00 else 0xffff_ffff
  }

  function Load16(o: Order, b0: bv8, b1: bv8): (w: bv32) {
    match o
    case Little => (b0 as bv32) | ((b1 as bv32) << 8)
    case Big => ((b0 as bv32) << 8) | (b1 as bv32)
  }

  function Shift16(w: bv32): (v: bv32) {
    w << 16
  }

  /** What the branch for addresses divisible by two adds; only the little-endian code has it. */
  function Halves(machine: Order, b0: bv8, b1: bv8, b2: bv8, b3: bv8, m: nat): (w: bv32) {
    if m == 1 then b0 as bv32
    else if m == 2 then Load16(machine, b0, b1)
    else if m == 3 then Add(Shift16(b2 as bv32), Load16(machine, b0, b1))
    else Add(Load16(machine, b0, b1), Shift16(Load16(machine, b2, b3)))
  }

  lemma Little1(b0: bv8, b1: bv8, b2: bv8, b3: bv8)
    ensures And(Load(Little, b0, b1, b2, b3), Mask(Little, 1)) == Sum(Little, b0, b1, b2, b3, 1)
  {
    assert And(((b0 as bv32) << 0) | ((b1 as bv32) << 8) | ((b2 as bv32) << 16) | ((b3 as bv32) << 24), 0xff)
      == ((b0 as bv32) << 0);
  }

  lemma Little2(b0: bv8, b1: bv8, b2: bv8, b3: bv8)
    ensures And(Load(Little, b0, b1, b2, b3), Mask(Little, 2)) == Sum(Little, b0, b1, b2, b3, 2)
  {
    assert And(((b0 as bv32) << 0) | ((b1 as bv32) << 8) | ((b2 as bv32) << 16) | ((b3 as bv32) << 24), 0xffff)
      == ((b0 as bv32) << 0) + ((b1 as bv32) << 8);
  }

  lemma Little3(b0: bv8, b1: bv8, b2: bv8, b3: bv8)
    ensures And(Load(Little, b0, b1, b2, b3), Mask(Little, 3)) == Sum(Little, b0, b1, b2, b3, 3)
  {
    assert And(((b0 as bv32) << 0) | ((b1 as bv32) << 8) | ((b2 as bv32) << 16) | ((b3 as bv32) << 24), 0xff_ffff)
      == ((b0 as bv32) << 0) + ((b1 as bv32) << 8) + ((b2 as bv32) << 16);
  }

  lemma Little4(b0: bv8, b1: bv8, b2: bv8, b3: bv8)
    ensures And(Load(Little, b0, b1, b2, b3), Mask(Little, 4)) == Sum(Little, b0, b1, b2, b3, 4)
  {
    assert And(((b0 as bv32) << 0) | ((b1 as bv32) << 8) | ((b2 as bv32) << 16) | ((b3 as bv32) << 24), 0xffff_ffff)
      == ((b0 as bv32) << 0) + ((b1 as bv32) << 8) + ((b2 as bv32) << 16) + ((b3 as bv32) << 24);
  }

  lemma Big1(b0: bv8, b1: bv8, b2: bv8, b3: bv8)
    ensures And(Load(Big, b0, b1, b2, b3), Mask(Big, 1)) == Sum(Big, b0, b1, b2, b3, 1)
  {
    assert And(((b0 as bv32) << 24) | ((b1 as bv32) << 16) | ((b2 as bv32) << 8) | ((b3 as bv32) << 0), 0xff00_0000)
      == ((b0 as bv32) << 24);
  }

  lemma Big2(b0: bv8, b1: bv8, b2: bv8, b3: bv8)
    ensures And(Load(Big, b0, b1, b2, b3), Mask(Big, 2)) == Sum(Big, b0, b1, b2, b3, 2)
  {
    assert And(((b0 as bv32) << 24) | ((b1 as bv32) << 16) | ((b2 as bv32) << 8) | ((b3 as bv32) << 0), 0xffff_0000)
      == ((b0 as bv32) << 24) + ((b1 as bv32) << 16);
  }

  lemma Big3(b0: bv8, b1: bv8, b2: bv8, b3: bv8)
    ensures And(Load(Big, b0, b1, b2, b3), Mask(Big, 3)) == Sum(Big, b0, b1, b2, b3, 3)
  {
    assert And(((b0 as bv32) << 24) | ((b1 as bv32) << 16) | ((b2 as bv32) << 8) | ((b3 as bv32) << 0), 0xffff_ff00)
      == ((b0 as bv32) << 24) + ((b1 as bv32) << 16) + ((b2 as bv32) << 8);
  }

  lemma Big4(b0: bv8, b1: bv8, b2: bv8, b3: bv8)
    ensures And(Load(Big, b0, b1, b2, b3), Mask(Big, 4)) == Sum(Big, b0, b1, b2, b3, 4)
  {
    assert And(((b0 as bv32) << 24) | ((b1 as bv32) << 16) | ((b2 as bv32) << 8) | ((b3 as bv32) << 0), 0xffff_ffff)
      == ((b0 as bv32) << 24) + ((b1 as bv32) << 16) + ((b2 as bv32) << 8) + ((b3 as bv32) << 0);
  }

  /** On a machine of the compiled order a masked word is the sum of the bytes that belong to the key. */
  lemma Masked(o: Order, b0: bv8, b1: bv8, b2: bv8, b3: bv8, m: nat)
    requires 0 < m <= 4
    ensures And(Load(o, b0, b1, b2, b3), Mask(o, m)) == Sum(o, b0, b1, b2, b3, m)
  {
    match o
    case Little =>
      if m == 1 { Little1(b0, b1, b2, b3); }
      else if m == 2 { Little2(b0, b1, b2, b3); }
      else if m == 3 { Little3(b0, b1, b2, b3); }
      else { Little4(b0, b1, b2, b3); }
    case Big =>
      if m == 1 { Big1(b0, b1, b2, b3); }
      else if m == 2 { Big2(b0, b1, b2, b3); }
      else if m == 3 { Big3(b0, b1, b2, b3); }
      else { Big4(b0, b1, b2, b3); }
  }

  lemma Halved3(b0: bv8, b1: bv8, b2: bv8, b3: bv8)
    ensures Halves(Little, b0, b1, b2, b3, 3) == Sum(Little, b0, b1, b2, b3, 3)
  {
    assert Shift16(b2 as bv32) == (b2 as bv32) << 16;
    assert Add((b2 as bv32) << 16, (b0 as bv32) | ((b1 as bv32) << 8))
      == ((b0 as bv32) << 0) + ((b1 as bv32) << 8) + ((b2 as bv32) << 16);
  }

  lemma Halved4(b0: bv8, b1: bv8, b2: bv8, b3: bv8)
    ensures Halves(Little, b0, b1, b2, b3, 4) == Sum(Little, b0, b1, b2, b3, 4)
  {
    assert Shift16((b2 as bv32) | ((b3 as bv32) << 8)) == ((b2 as bv32) | ((b3 as bv32) << 8)) << 16;
    assert Add((b0 as bv32) | ((b1 as bv32) << 8), ((b2 as bv32) | ((b3 as bv32) << 8)) << 16)
      == ((b0 as bv32) << 0) + ((b1 as bv32) << 8) + ((b2 as bv32) << 16) + ((b3 as bv32) << 24);
  }

  lemma Halved2(b0: bv8, b1: bv8, b2: bv8, b3: bv8)
    ensures Halves(Little, b0, b1, b2, b3, 2) == Sum(Little, b0, b1, b2, b3, 2)
  {
  }

  lemma Halved1(b0: bv8, b1: bv8, b2: bv8, b3: bv8)
    ensures Halves(Little, b0, b1, b2, b3, 1) == Sum(Little, b0, b1, b2, b3, 1)
  {
  }

  lemma Halved(b0: bv8, b1: bv8, b2: bv8, b3: bv8, m: nat)
    requires 0 < m <= 4
    ensures Halves(Little, b0, b1, b2, b3, m) == Sum(Little, b0, b1, b2, b3, m)
  {
    if m == 1 { Halved1(b0, b1, b2, b3); }
    else if m == 2 { Halved2(b0, b1, b2, b3); }
    else if m == 3 { Halved3(b0, b1, b2, b3); }
    else { Halved4(b0, b1, b2, b3); }
  }

  // ---------------------------------------------------------------- the three ways to read a key

  /** Byte by byte, for any address. */
  function ByteWise(o: Order): (f: Assembly<bv8, bv32>) {
    (x: Four<bv8>, m: nat) => Sum(o, x.b0, x.b1, x.b2, x.b3, m)
  }

  /** By masked 32-bit words, for an address divisible by four. */
  function WordWise(compiled: Order, machine: Order): (f: Assembly<bv8, bv32>) {
    (x: Four<bv8>, m: nat) => And(Load(machine, x.b0, x.b1, x.b2, x.b3), Mask(compiled, m))
  }

  /** By 16-bit words, for an address divisible by two. */
  function HalfWise(machine: Order): (f: Assembly<bv8, bv32>) {
    (x: Four<bv8>, m: nat) => Halves(machine, x.b0, x.b1, x.b2, x.b3, m)
  }

  /** The branch of jenkins_hash that the address selects. */
  function Branch(compiled: Order, machine: Order, address: nat): (f: Assembly<bv8, bv32>) {
    if address % 4 == 0 then WordWise(compiled, machine)
    else if compiled == Little && address % 2 == 0 then HalfWise(machine)
    else ByteWise(compiled)
  }

  /** a = b = c = 0xdeadbeef + (uint32_t)length */
  function Start(n: nat): (x: bv32) {
    0xdead_beef + (n % 0x1_0000_0000) as bv32
  }

  /** jenkins_hash of the n bytes at an address; mem is what the memory holds from there. */
  function HashAt(compiled: Order, machine: Order, address: nat, mem: seq<bv8>, n: nat): (c: bv32) {
    Hash(Words(), Start(n), Reading(Branch(compiled, machine, address), mem, 0), n)
  }

  /** The hash of a key, whatever its address. */
  function HashOf(o: Order, key: seq<bv8>): (c: bv32) {
    Hash(Words(), Start(|key|), Reading(ByteWise(o), key, 0), |key|)
  }

  lemma WordWiseAgrees(o: Order)
    ensures SameAssembly(WordWise(o, o), ByteWise(o))
  {
    forall x: Four<bv8>, m: nat | 0 < m <= 4 ensures WordWise(o, o)(x, m) == ByteWise(o)(x, m) {
      Masked(o, x.b0, x.b1, x.b2, x.b3, m);
    }
  }

  lemma HalfWiseAgrees()
    ensures SameAssembly(HalfWise(Little), ByteWise(Little))
  {
    forall x: Four<bv8>, m: nat | 0 < m <= 4 ensures HalfWise(Little)(x, m) == ByteWise(Little)(x, m) {
      Halved(x.b0, x.b1, x.b2, x.b3, m);
    }
  }

  lemma BranchAgrees(o: Order, address: nat)
    ensures SameAssembly(Branch(o, o, address), ByteWise(o))
  {
    if address % 4 == 0 {
      WordWiseAgrees(o);
    } else if o == Little && address % 2 == 0 {
      HalfWiseAgrees();
    }
  }

  lemma Drop1(o: Order, b0: bv8, b1: bv8, b2: bv8, b3: bv8)
    ensures Sum(o, b0, b1, b2, b3, 1) == Sum(o, b0, 0, 0, 0, 1)
  {
  }

  lemma Drop2(o: Order, b0: bv8, b1: bv8, b2: bv8, b3: bv8)
    ensures Sum(o, b0, b1, b2, b3, 2) == Sum(o, b0, b1, 0, 0, 2)
  {
  }

  lemma Drop3(o: Order, b0: bv8, b1: bv8, b2: bv8, b3: bv8)
    ensures Sum(o, b0, b1, b2, b3, 3) == Sum(o, b0, b1, b2, 0, 3)
  {
  }

  lemma SumLocal(o: Order, x: Four<bv8>, y: Four<bv8>, m: nat)
    requires Alike(x, y, m)
    ensures Sum(o, x.b0, x.b1, x.b2, x.b3, m) == Sum(o, y.b0, y.b1, y.b2, y.b3, m)
  {
    if m == 1 {
      Drop1(o, x.b0, x.b1, x.b2, x.b3);
      Drop1(o, y.b0, y.b1, y.b2, y.b3);
    } else if m == 2 {
      Drop2(o, x.b0, x.b1, x.b2, x.b3);
      Drop2(o, y.b0, y.b1, y.b2, y.b3);
    } else if m == 3 {
      Drop3(o, x.b0, x.b1, x.b2, x.b3);
      Drop3(o, y.b0, y.b1, y.b2, y.b3);
    }
  }

  lemma ByteWiseIsLocal(o: Order)
    ensures Local(ByteWise(o))
  {
    forall x: Four<bv8>, y: Four<bv8>, m: nat | Alike(x, y, m) ensures ByteWise(o)(x, m) == ByteWise(o)(y, m) {
      SumLocal(o, x, y, m);
    }
  }

  /** On a machine of the compiled byte order neither the address nor the bytes behind the key matter. */
  lemma AlignmentIndependent(o: Order, address: nat, mem: seq<bv8>, n: nat)
    requires n <= |mem|
    ensures HashAt(o, o, address, mem, n) == HashOf(o, mem[..n])
  {
    BranchAgrees(o, address);
    ByteWiseIsLocal(o);
    SameHash(Words(), Start(n), Branch(o, o, address), ByteWise(o), mem, 0, n);
  }

  lemma FinalValues()
    ensures Final(Words(), Abc(Add(0xdead_bef0, 0), 0xdead_bef0, 0xdead_bef0)) == 0x8ba9_414b
    ensures Final(Words(), Abc(Add(0xdead_bef0, 1), 0xdead_bef0, 0xdead_bef0)) == 0x04ec_883b
    ensures Final(Words(), Abc(Add(0xdead_bef0, 0x0100_0000), 0xdead_bef0, 0xdead_bef0)) == 0x8c5e_495e
  {
  }

  lemma Misread()
    ensures And(Load(Little, 1, 0, 0, 0), Mask(Big, 1)) == 0 == And(Load(Big, 1, 0, 0, 0), Mask(Little, 1))
    ensures Sum(Little, 1, 0, 0, 0, 1) == 1 && Sum(Big, 1, 0, 0, 0, 1) == 0x0100_0000
    ensures Start(1) == 0xdead_bef0
  {
  }

  /** At an even address the little-endian code takes the bytes in pairs. */
  lemma Mispaired()
    ensures Halves(Big, 1, 0, 0, 0, 2) == 0x100 && Sum(Little, 1, 0, 0, 0, 2) == 1 && Start(2) == 0xdead_bef1
  {
  }

  lemma PairFinals()
    ensures Final(Words(), Abc(Add(0xdead_bef1, 0x100), 0xdead_bef1, 0xdead_bef1)) == 0xdf0d_39c9
    ensures Final(Words(), Abc(Add(0xdead_bef1, 1), 0xdead_bef1, 0xdead_bef1)) == 0xaf75_8ef3
  {
  }

  /** A read on a machine of the other order is that of the bytes in reverse. */
  lemma Mirrored(b0: bv8, b1: bv8, b2: bv8, b3: bv8)
    ensures Load16(Big, b0, b1) == Load16(Little, b1, b0)
    ensures Load(Big, b0, b1, b2, b3) == Load(Little, b3, b2, b1, b0)
  {
  }

  lemma FirstWord(start: bv32, f: Assembly<bv8, bv32>, mem: seq<bv8>, n: nat, x: Four<bv8>, w: bv32)
    requires 0 < n <= 4 && FourAt(mem, 0, 0) == x && f(x, n) == w
    ensures Hash(Words(), start, Reading(f, mem, 0), n) == Final(Words(), Abc(Add(start, w), start, start))
  {
    HashOfWord(Words(), start, Reading(f, mem, 0), n);
  }

  lemma WordSide(compiled: Order, machine: Order, address: nat)
    requires compiled != machine && address % 4 == 0
    ensures HashAt(compiled, machine, address, [1, 0, 0, 0], 1) == 0x8ba9_414b
  {
    Misread();
    FirstWord(Start(1), WordWise(compiled, machine), [1, 0, 0, 0], 1, Four(1, 0, 0, 0), 0);
    FinalValues();
  }

  lemma ByteSide(compiled: Order)
    ensures HashOf(compiled, [1]) == if compiled == Little then 0x04ec_883b else 0x8c5e_495e
  {
    Misread();
    FirstWord(Start(1), ByteWise(compiled), [1], 1, Four(1, 0, 0, 0), if compiled == Little then 1 else 0x0100_0000);
    FinalValues();
  }

  /** Code compiled for the other byte order hashes the one-byte key 1 differently at aligned and odd addresses. */
  lemma Mismatch(compiled: Order, machine: Order, address: nat)
    requires compiled != machine && address % 4 == 0
    ensures HashAt(compiled, machine, address, [1, 0, 0, 0], 1) != HashOf(compiled, [1, 0, 0, 0][..1])
  {
    assert [1 as bv8, 0, 0, 0][..1] == [1];
    WordSide(compiled, machine, address);
    ByteSide(compiled);
  }

  lemma PairSide(address: nat)
    requires address % 4 == 2
    ensures HashAt(Little, Big, address, [1, 0], 2) == 0xdf0d_39c9
  {
    assert Branch(Little, Big, address) == HalfWise(Big);
    PairHash();
  }

  lemma PairHash()
    ensures Hash(Words(), Start(2), Reading(HalfWise(Big), [1, 0], 0), 2) == 0xdf0d_39c9
  {
    Mispaired();
    FirstWord(Start(2), HalfWise(Big), [1, 0], 2, Four(1, 0, 0, 0), 0x100);
    PairFinals();
  }

  lemma BytesSide()
    ensures HashOf(Little, [1, 0]) == 0xaf75_8ef3
  {
    Mispaired();
    FirstWord(Start(2), ByteWise(Little), [1, 0], 2, Four(1, 0, 0, 0), 1);
    PairFinals();
  }

  /** And the key of the bytes 1 and 0 at even addresses. */
  lemma PairMismatch(address: nat)
    requires address % 4 == 2
    ensures HashAt(Little, Big, address, [1, 0], 2) != HashOf(Little, [1, 0][..2])
  {
    assert [1 as bv8, 0][..2] == [1, 0];
    PairSide(address);
    BytesSide();
  }

  /** At this address every key has its one hash, whatever lies behind it. */
  ghost predicate Uniform(compiled: Order, machine: Order, address: nat) {
    forall mem, n: nat | n <= |mem| :: HashAt(compiled, machine, address, mem, n) == HashOf(compiled, mem[..n])
  }

  lemma NotUniform(compiled: Order, machine: Order, address: nat, mem: seq<bv8>, n: nat)
    requires n <= |mem| && HashAt(compiled, machine, address, mem, n) != HashOf(compiled, mem[..n])
    ensures !Uniform(compiled, machine, address)
  {
  }

  lemma IsUniform(compiled: Order, machine: Order, address: nat)
    requires SameAssembly(Branch(compiled, machine, address), ByteWise(compiled))
    ensures Uniform(compiled, machine, address)
  {
    ByteWiseIsLocal(compiled);
    forall mem, n: nat | n <= |mem|
      ensures HashAt(compiled, machine, address, mem, n) == HashOf(compiled, mem[..n])
    {
      SameHash(Words(), Start(n), Branch(compiled, machine, address), ByteWise(compiled), mem, 0, n);
    }
  }

  lemma AlignedFails(compiled: Order, machine: Order, address: nat)
    requires compiled != machine && address % 4 == 0
    ensures !Uniform(compiled, machine, address)
  {
    Mismatch(compiled, machine, address);
    NotUniform(compiled, machine, address, [1, 0, 0, 0], 1);
  }

  lemma EvenFails(address: nat)
    requires address % 4 == 2
    ensures !Uniform(Little, Big, address)
  {
    PairMismatch(address);
    NotUniform(Little, Big, address, [1, 0], 2);
  }

  /** No read from the address is wider than a byte: an odd one, or none of four for big-endian code. */
  predicate ByBytes(compiled: Order, address: nat) {
    if compiled == Little then address % 2 == 1 else address % 4 != 0
  }

  lemma BranchByBytes(compiled: Order, machine: Order, address: nat)
    requires ByBytes(compiled, address)
    ensures Branch(compiled, machine, address) == ByteWise(compiled)
  {
  }

  lemma ByteWiseHolds(compiled: Order, machine: Order, address: nat)
    requires ByBytes(compiled, address)
    ensures Uniform(compiled, machine, address)
  {
    BranchByBytes(compiled, machine, address);
    IsUniform(compiled, machine, address);
  }

  lemma OneOrderHolds(o: Order, address: nat)
    ensures Uniform(o, o, address)
  {
    BranchAgrees(o, address);
    IsUniform(o, o, address);
  }

  lemma WideFails(compiled: Order, machine: Order, address: nat)
    requires compiled != machine && !ByBytes(compiled, address)
    ensures !Uniform(compiled, machine, address)
  {
    if address % 4 == 0 { AlignedFails(compiled, machine, address); } else { EvenFails(address); }
  }

  /** Keys at an address have the hash they have everywhere exactly on machines of the compiled byte order,
      and at addresses that no wider read is made from. */
  lemma AlignmentExact(compiled: Order, machine: Order, address: nat)
    ensures Uniform(compiled, machine, address) <==> compiled == machine || ByBytes(compiled, address)
  {
    if compiled == machine {
      OneOrderHolds(compiled, address);
    } else if ByBytes(compiled, address) {
      ByteWiseHolds(compiled, machine, address);
    } else {
      WideFails(compiled, machine, address);
    }
  }

  // ---------------------------------------------------------------- no two keys that differ in one block meet

  /** The bytes of a word in memory. */
  function Unload(o: Order, w: bv32): (x: Four<bv8>) {
    match o
    case Little =>
      Four((w & 0xff) as bv8, ((w >> 8) & 0xff) as bv8, ((w >> 16) & 0xff) as bv8, ((w >> 24) & 0xff) as bv8)
    case Big =>
      Four(((w >> 24) & 0xff) as bv8, ((w >> 16) & 0xff) as bv8, ((w >> 8) & 0xff) as bv8, (w & 0xff) as bv8)
  }

  lemma UnloadLittle(b0: bv8, b1: bv8, b2: bv8, b3: bv8)
    ensures Unload(Little, Sum(Little, b0, b1, b2, b3, 4)) == Four(b0, b1, b2, b3)
  {
    assert Unload(Little, ((b0 as bv32) << 0) + ((b1 as bv32) << 8) + ((b2 as bv32) << 16) + ((b3 as bv32) << 24))
      == Four(b0, b1, b2, b3);
  }

  lemma UnloadBig(b0: bv8, b1: bv8, b2: bv8, b3: bv8)
    ensures Unload(Big, Sum(Big, b0, b1, b2, b3, 4)) == Four(b0, b1, b2, b3)
  {
    assert Unload(Big, ((b0 as bv32) << 24) + ((b1 as bv32) << 16) + ((b2 as bv32) << 8) + ((b3 as bv32) << 0))
      == Four(b0, b1, b2, b3);
  }

  lemma UnloadLittle1(b0: bv8, b1: bv8, b2: bv8, b3: bv8)
    ensures Unload(Little, Sum(Little, b0, b1, b2, b3, 1)) == Four(b0, 0, 0, 0)
  {
    assert Unload(Little, ((b0 as bv32) << 0)) == Four(b0, 0, 0, 0);
  }

  lemma UnloadLittle2(b0: bv8, b1: bv8, b2: bv8, b3: bv8)
    ensures Unload(Little, Sum(Little, b0, b1, b2, b3, 2)) == Four(b0, b1, 0, 0)
  {
    assert Unload(Little, ((b0 as bv32) << 0) + ((b1 as bv32) << 8)) == Four(b0, b1, 0, 0);
  }

  lemma UnloadLittle3(b0: bv8, b1: bv8, b2: bv8, b3: bv8)
    ensures Unload(Little, Sum(Little, b0, b1, b2, b3, 3)) == Four(b0, b1, b2, 0)
  {
    assert Unload(Little, ((b0 as bv32) << 0) + ((b1 as bv32) << 8) + ((b2 as bv32) << 16)) == Four(b0, b1, b2, 0);
  }

  lemma UnloadBig1(b0: bv8, b1: bv8, b2: bv8, b3: bv8)
    ensures Unload(Big, Sum(Big, b0, b1, b2, b3, 1)) == Four(b0, 0, 0, 0)
  {
    assert Unload(Big, ((b0 as bv32) << 24)) == Four(b0, 0, 0, 0);
  }

  lemma UnloadBig2(b0: bv8, b1: bv8, b2: bv8, b3: bv8)
    ensures Unload(Big, Sum(Big, b0, b1, b2, b3, 2)) == Four(b0, b1, 0, 0)
  {
    assert Unload(Big, ((b0 as bv32) << 24) + ((b1 as bv32) << 16)) == Four(b0, b1, 0, 0);
  }

  lemma UnloadBig3(b0: bv8, b1: bv8, b2: bv8, b3: bv8)
    ensures Unload(Big, Sum(Big, b0, b1, b2, b3, 3)) == Four(b0, b1, b2, 0)
  {
    assert Unload(Big, ((b0 as bv32) << 24) + ((b1 as bv32) << 16) + ((b2 as bv32) << 8)) == Four(b0, b1, b2, 0);
  }

  lemma Tells1(o: Order, x: Four<bv8>, y: Four<bv8>)
    requires ByteWise(o)(x, 1) == ByteWise(o)(y, 1)
    ensures x.b0 == y.b0
  {
    match o
    case Little =>
      UnloadLittle1(x.b0, x.b1, x.b2, x.b3);
      UnloadLittle1(y.b0, y.b1, y.b2, y.b3);
    case Big =>
      UnloadBig1(x.b0, x.b1, x.b2, x.b3);
      UnloadBig1(y.b0, y.b1, y.b2, y.b3);
  }

  lemma Tells2(o: Order, x: Four<bv8>, y: Four<bv8>)
    requires ByteWise(o)(x, 2) == ByteWise(o)(y, 2)
    ensures x.b0 == y.b0 && x.b1 == y.b1
  {
    match o
    case Little =>
      UnloadLittle2(x.b0, x.b1, x.b2, x.b3);
      UnloadLittle2(y.b0, y.b1, y.b2, y.b3);
    case Big =>
      UnloadBig2(x.b0, x.b1, x.b2, x.b3);
      UnloadBig2(y.b0, y.b1, y.b2, y.b3);
  }

  lemma Tells3(o: Order, x: Four<bv8>, y: Four<bv8>)
    requires ByteWise(o)(x, 3) == ByteWise(o)(y, 3)
    ensures x.b0 == y.b0 && x.b1 == y.b1 && x.b2 == y.b2
  {
    match o
    case Little =>
      UnloadLittle3(x.b0, x.b1, x.b2, x.b3);
      UnloadLittle3(y.b0, y.b1, y.b2, y.b3);
    case Big =>
      UnloadBig3(x.b0, x.b1, x.b2, x.b3);
      UnloadBig3(y.b0, y.b1, y.b2, y.b3);
  }

  lemma Tells4(o: Order, x: Four<bv8>, y: Four<bv8>)
    requires ByteWise(o)(x, 4) == ByteWise(o)(y, 4)
    ensures x == y
  {
    match o
    case Little =>
      UnloadLittle(x.b0, x.b1, x.b2, x.b3);
      UnloadLittle(y.b0, y.b1, y.b2, y.b3);
    case Big =>
      UnloadBig(x.b0, x.b1, x.b2, x.b3);
      UnloadBig(y.b0, y.b1, y.b2, y.b3);
  }

  /** A word determines the bytes of the key it is made of. */
  lemma ByteWiseTells(o: Order)
    ensures Telling(ByteWise(o))
  {
    var f := ByteWise(o);
    forall x, y | f(x, 1) == f(y, 1) ensures x.b0 == y.b0 { Tells1(o, x, y); }
    forall x, y | f(x, 2) == f(y, 2) ensures x.b0 == y.b0 && x.b1 == y.b1 { Tells2(o, x, y); }
    forall x, y | f(x, 3) == f(y, 3) ensures x.b0 == y.b0 && x.b1 == y.b1 && x.b2 == y.b2 { Tells3(o, x, y); }
    forall x, y | f(x, 4) == f(y, 4) ensures x == y { Tells4(o, x, y); }
    TellsAll(f);
  }

  /** The state of jenkins_hash in front of its last mixing. */
  ghost function BeforeFinal(o: Order, key: seq<bv8>): (s: Abc<bv32>) {
    Gathered(Words(), Start(|key|), Reading(ByteWise(o), key, 0), |key|)
  }

  /** Two keys of one length that differ only inside one block, be it the last, reach the same state in front of the
      last mixing if and only if they are equal. */
  lemma BlocksTell(o: Order, key: seq<bv8>, key': seq<bv8>, j: nat)
    requires key != [] && DifferOnlyIn(key, key', 12 * j, 12 * j + 12)
    ensures BeforeFinal(o, key) == BeforeFinal(o, key') <==> key == key'
  {
    WordsAreLawful();
    ByteWiseTells(o);
    OneBlockDecides(Words(), Start(|key|), ByteWise(o), key, key', 0, j);
  }

  /** jenkins_hash of the n bytes at an address. */
  method JenkinsHash(compiled: Order, machine: Order, address: nat, mem: seq<bv8>, n: nat) returns (c: bv32)
    requires n <= |mem|
    ensures c == HashAt(compiled, machine, address, mem, n)
    ensures compiled == machine ==> c == HashOf(compiled, mem[..n])
  {
    if compiled == machine { AlignmentIndependent(compiled, address, mem, n); }
    c := HashKey(Words(), Start(n), Branch(compiled, machine, address), mem, 0, n);
  }

  // ---------------------------------------------------------------- a known value

  /** The key of the test vector that comes with Bob Jenkins' lookup3. */
  const SCORE: seq<bv8> := [
    70, 111, 117, 114, 32, 115, 99, 111, 114, 101, 32, 97, 110, 100, 32,
    115, 101, 118, 101, 110, 32, 121, 101, 97, 114, 115, 32, 97, 103, 111]

  lemma ScoreWord0()
    ensures Reading(ByteWise(Little), SCORE, 0)(0, 4) == 0x7275_6f46
  {
    assert FourAt(SCORE, 0, 0) == Four(70, 111, 117, 114);
  }

  lemma ScoreWord1()
    ensures Reading(ByteWise(Little), SCORE, 0)(4, 4) == 0x6f63_7320
  {
    assert FourAt(SCORE, 4, 0) == Four(32, 115, 99, 111);
  }

  lemma ScoreWord2()
    ensures Reading(ByteWise(Little), SCORE, 0)(8, 4) == 0x6120_6572
  {
    assert FourAt(SCORE, 8, 0) == Four(114, 101, 32, 97);
  }

  lemma ScoreWord3()
    ensures Reading(ByteWise(Little), SCORE, 0)(12, 4) == 0x7320_646e
  {
    assert FourAt(SCORE, 12, 0) == Four(110, 100, 32, 115);
  }

  lemma ScoreWord4()
    ensures Reading(ByteWise(Little), SCORE, 0)(16, 4) == 0x6e65_7665
  {
    assert FourAt(SCORE, 16, 0) == Four(101, 118, 101, 110);
  }

  lemma ScoreWord5()
    ensures Reading(ByteWise(Little), SCORE, 0)(20, 4) == 0x6165_7920
  {
    assert FourAt(SCORE, 20, 0) == Four(32, 121, 101, 97);
  }

  lemma ScoreWord6()
    ensures Reading(ByteWise(Little), SCORE, 0)(24, 4) == 0x6120_7372
  {
    assert FourAt(SCORE, 24, 0) == Four(114, 115, 32, 97);
  }

  lemma ScoreWord7()
    ensures Reading(ByteWise(Little), SCORE, 0)(28, 2) == 0x0000_6f67
  {
    assert FourAt(SCORE, 28, 0) == Four(103, 111, 0, 0);
  }

  lemma ScoreMixes()
    ensures Absorb(Words(), Abc(0xdead_bf0d, 0xdead_bf0d, 0xdead_bf0d), Abc(0x7275_6f46, 0x6f63_7320, 0x6120_6572))
         == Abc(0xf859_ad7a, 0x04bc_57ae, 0x40dd_dd7e)
    ensures Absorb(Words(), Abc(0xf859_ad7a, 0x04bc_57ae, 0x40dd_dd7e), Abc(0x7320_646e, 0x6e65_7665, 0x6165_7920))
         == Abc(0x336a_ded2, 0x059f_2642, 0xbd02_ebd5)
  {
    MixIs(
      Words(), Plus(Words(), Abc(0xdead_bf0d, 0xdead_bf0d, 0xdead_bf0d), Abc(0x7275_6f46, 0x6f63_7320, 0x6120_6572)));
    MixIs(
      Words(), Plus(Words(), Abc(0xf859_ad7a, 0x04bc_57ae, 0x40dd_dd7e), Abc(0x7320_646e, 0x6e65_7665, 0x6165_7920)));
  }

  lemma ScoreFinal()
    ensures Final(Words(), Abc(Add(0x336a_ded2, 0x6120_7372), Add(0x059f_2642, 0x0000_6f67), 0xbd02_ebd5))
         == 0x1777_0551
  {
  }

  lemma TwoBlocks<W>(o: Ops<W>, start: W, read: Reader<W>, ws: seq<W>, s: Abc<W>, t: Abc<W>, c: W)
    requires |ws| == 8 && (forall i | 0 <= i < 7 :: read(4 * i, 4) == ws[i]) && read(28, 2) == ws[7]
    requires Absorb(o, Abc(start, start, start), Abc(ws[0], ws[1], ws[2])) == s
    requires Absorb(o, s, Abc(ws[3], ws[4], ws[5])) == t
    requires Final(o, Abc(o.plus(t.a, ws[6]), o.plus(t.b, ws[7]), t.c)) == c
    ensures Hash(o, start, read, 30) == c
  {
    var f, bs := Absorber(o), BlocksOf(read, 2);
    assert read(4 * 0, 4) == ws[0] && read(4 * 1, 4) == ws[1] && read(4 * 2, 4) == ws[2];
    assert read(4 * 3, 4) == ws[3] && read(4 * 4, 4) == ws[4] && read(4 * 5, 4) == ws[5];
    assert read(4 * 6, 4) == ws[6];
    assert Blocks(30) == 2 && bs[..1] == [bs[0]] && bs[..1][..0] == [];
    assert Fold(f, Abc(start, start, start), bs[..1]) == s;
  }

  lemma ScoreWords(read: Reader<bv32>, ws: seq<bv32>)
    requires read == Reading(ByteWise(Little), SCORE, 0)
    requires ws == [0x7275_6f46, 0x6f63_7320, 0x6120_6572, 0x7320_646e,
      0x6e65_7665, 0x6165_7920, 0x6120_7372, 0x0000_6f67]
    ensures (forall i | 0 <= i < 7 :: read(4 * i, 4) == ws[i]) && read(28, 2) == ws[7]
  {
    ScoreWord0(); ScoreWord1(); ScoreWord2(); ScoreWord3();
    ScoreWord4(); ScoreWord5(); ScoreWord6(); ScoreWord7();
  }

  lemma ScoreStart()
    ensures |SCORE| == 30 && Start(30) == 0xdead_bf0d && Start(0) == 0xdead_beef
  {
  }

  /** The published value of the little-endian hash, and that of the empty key. */
  lemma KnownHash()
    ensures HashOf(Little, SCORE) == 0x1777_0551 && HashOf(Little, []) == 0xdead_beef
  {
    var read := Reading(ByteWise(Little), SCORE, 0);
    var ws: seq<bv32> := [0x7275_6f46, 0x6f63_7320, 0x6120_6572, 0x7320_646e,
      0x6e65_7665, 0x6165_7920, 0x6120_7372, 0x0000_6f67];
    ScoreWords(read, ws);
    ScoreMixes();
    ScoreFinal();
    ScoreStart();
    TwoBlocks(Words(), 0xdead_bf0d, read, ws, Abc(0xf859_ad7a, 0x04bc_57ae, 0x40dd_dd7e),
              Abc(0x336a_ded2, 0x059f_2642, 0xbd02_ebd5), 0x1777_0551);
  }
}
