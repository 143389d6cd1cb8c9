/** The arithmetic of Bob Jenkins' hash, over any words with invertible operations. */
module Mixing {
  import opened Folding

  datatype Ops<!W> = Ops(plus: (W, W) -> W, minus: (W, W) -> W, xor: (W, W) -> W, rot: (W, nat) -> W)

  ghost predicate Lawful<W(!new)>(o: Ops<W>) {
    && (forall x, y :: o.minus(o.plus(x, y), y) == x)
    && (forall x, y :: o.minus(o.plus(x, y), x) == y)
    && (forall x, y :: o.plus(o.minus(x, y), y) == x)
    && (forall x, y :: o.xor(o.xor(x, y), y) == x)
  }

  /** The internal state, or one block of the key. */
  datatype Abc<W> = Abc(a: W, b: W, c: W)

  /** One line of mix: x -= z; x ^= rot(z, k); z += y; the next line begins at y. */
  function Turn<W>(o: Ops<W>, s: Abc<W>, k: nat): (t: Abc<W>) {
    Abc(s.b, o.plus(s.c, s.b), o.xor(o.minus(s.a, s.c), o.rot(s.c, k)))
  }

  function Unturn<W>(o: Ops<W>, t: Abc<W>, k: nat): (s: Abc<W>) {
    var z := o.minus(t.b, t.a);
    Abc(o.plus(o.xor(t.c, o.rot(z, k)), z), t.a, z)
  }

  lemma TurnBack<W(!new)>(o: Ops<W>, s: Abc<W>, k: nat)
    requires Lawful(o)
    ensures Unturn(o, Turn(o, s, k), k) == s
  {
  }

  lemma TurnForth<W(!new)>(o: Ops<W>, t: Abc<W>, k: nat)
    requires Lawful(o)
    ensures Turn(o, Unturn(o, t, k), k) == t
  {
  }

  function Turns<W>(o: Ops<W>, s: Abc<W>, ks: seq<nat>): (t: Abc<W>) {
    if ks == [] then s else Turn(o, Turns(o, s, ks[..|ks| - 1]), ks[|ks| - 1])
  }

  function Unturns<W>(o: Ops<W>, t: Abc<W>, ks: seq<nat>): (s: Abc<W>)
    decreases |ks|
  {
    if ks == [] then t else Unturns(o, Unturn(o, t, ks[|ks| - 1]), ks[..|ks| - 1])
  }

  lemma {:induction false} TurnsBack<W(!new)>(o: Ops<W>, s: Abc<W>, ks: seq<nat>)
    requires Lawful(o)
    ensures Unturns(o, Turns(o, s, ks), ks) == s
  {
    if ks != [] {
      TurnBack(o, Turns(o, s, ks[..|ks| - 1]), ks[|ks| - 1]);
      TurnsBack(o, s, ks[..|ks| - 1]);
    }
  }

  lemma {:induction false} TurnsForth<W(!new)>(o: Ops<W>, t: Abc<W>, ks: seq<nat>)
    requires Lawful(o)
    ensures Turns(o, Unturns(o, t, ks), ks) == t
    decreases |ks|
  {
    if ks != [] {
      TurnsForth(o, Unturn(o, t, ks[|ks| - 1]), ks[..|ks| - 1]);
      TurnForth(o, t, ks[|ks| - 1]);
    }
  }

  /** The six lines of mix; after six turns every word is back in its place. */
  const MIX: seq<nat> := [4, 6, 8, 16, 19, 4]

  function Mix<W>(o: Ops<W>, s: Abc<W>): (t: Abc<W>) {
    Turns(o, s, MIX)
  }

  lemma MixIs<W>(o: Ops<W>, s: Abc<W>)
    ensures Mix(o, s) == Turn(o, Turn(o, Turn(o, Turn(o, Turn(o, Turn(o, s, 4), 6), 8), 16), 19), 4)
  {
    assert [] + [4] == [4] && [4] + [6] == [4, 6] && [4, 6] + [8] == [4, 6, 8];
    assert [4, 6, 8] + [16] == [4, 6, 8, 16] && [4, 6, 8, 16] + [19] == [4, 6, 8, 16, 19];
    assert [4, 6, 8, 16, 19] + [4] == MIX;
    TurnsMore(o, s, [], 4);
    TurnsMore(o, s, [4], 6);
    TurnsMore(o, s, [4, 6], 8);
    TurnsMore(o, s, [4, 6, 8], 16);
    TurnsMore(o, s, [4, 6, 8, 16], 19);
    TurnsMore(o, s, [4, 6, 8, 16, 19], 4);
  }

  lemma TurnsMore<W>(o: Ops<W>, s: Abc<W>, ks: seq<nat>, k: nat)
    ensures Turns(o, s, ks + [k]) == Turn(o, Turns(o, s, ks), k)
  {
    assert (ks + [k])[..|ks|] == ks;
  }

  function Unmix<W>(o: Ops<W>, t: Abc<W>): (s: Abc<W>) {
    Unturns(o, t, MIX)
  }

  /** mix is reversible: what is in (a, b, c) before is still there after. */
  lemma MixIsReversible<W(!new)>(o: Ops<W>, s: Abc<W>)
    requires Lawful(o)
    ensures Unmix(o, Mix(o, s)) == s && Mix(o, Unmix(o, s)) == s
  {
    TurnsBack(o, s, MIX);
    TurnsForth(o, s, MIX);
  }

  function Plus<W>(o: Ops<W>, s: Abc<W>, w: Abc<W>): (t: Abc<W>) {
    Abc(o.plus(s.a, w.a), o.plus(s.b, w.b), o.plus(s.c, w.c))
  }

  /** One round of the block loop. */
  function Absorb<W>(o: Ops<W>, s: Abc<W>, w: Abc<W>): (t: Abc<W>) {
    Mix(o, Plus(o, s, w))
  }

  function Absorber<W>(o: Ops<W>): (f: (Abc<W>, Abc<W>) -> Abc<W>) {
    (s: Abc<W>, w: Abc<W>) => Absorb(o, s, w)
  }

  lemma PlusApart<W(!new)>(o: Ops<W>, s: Abc<W>, t: Abc<W>, u: Abc<W>, v: Abc<W>)
    requires Lawful(o) && Plus(o, s, u) == Plus(o, t, v)
    ensures s == t ==> u == v
    ensures u == v ==> s == t
  {
    assert o.minus(o.plus(s.a, u.a), s.a) == u.a && o.minus(o.plus(t.a, v.a), t.a) == v.a;
    assert o.minus(o.plus(s.b, u.b), s.b) == u.b && o.minus(o.plus(t.b, v.b), t.b) == v.b;
    assert o.minus(o.plus(s.c, u.c), s.c) == u.c && o.minus(o.plus(t.c, v.c), t.c) == v.c;
    assert o.minus(o.plus(s.a, u.a), u.a) == s.a && o.minus(o.plus(t.a, v.a), v.a) == t.a;
    assert o.minus(o.plus(s.b, u.b), u.b) == s.b && o.minus(o.plus(t.b, v.b), v.b) == t.b;
    assert o.minus(o.plus(s.c, u.c), u.c) == s.c && o.minus(o.plus(t.c, v.c), v.c) == t.c;
  }

  lemma AbsorbApart<W(!new)>(o: Ops<W>, s: Abc<W>, t: Abc<W>, u: Abc<W>, v: Abc<W>)
    requires Lawful(o) && Absorb(o, s, u) == Absorb(o, t, v)
    ensures s == t ==> u == v
    ensures u == v ==> s == t
  {
    MixIsReversible(o, Plus(o, s, u));
    MixIsReversible(o, Plus(o, t, v));
    PlusApart(o, s, t, u, v);
  }

  /** Keys whose blocks differ in one place reach different states at the end of the block loop. */
  lemma OneBlockTells<W(!new)>(o: Ops<W>, s: Abc<W>, p: seq<Abc<W>>, u: Abc<W>, v: Abc<W>, q: seq<Abc<W>>)
    requires Lawful(o)
    ensures Fold(Absorber(o), s, p + [u] + q) == Fold(Absorber(o), s, p + [v] + q) <==> u == v
  {
    var f := Absorber(o);
    var t := Fold(f, s, p);
    FoldConcat(f, s, p + [u], q);
    FoldConcat(f, s, p + [v], q);
    FoldConcat(f, s, p, [u]);
    FoldConcat(f, s, p, [v]);
    assert [u][..0] == [] && [v][..0] == [];
    if Fold(f, s, p + [u] + q) == Fold(f, s, p + [v] + q) {
      forall x, y, w | f(x, w) == f(y, w) ensures x == y {
        AbsorbApart(o, x, y, w, w);
      }
      FoldApart(f, f(t, u), f(t, v), q);
      AbsorbApart(o, t, t, u, v);
    }
  }

  /** One line of final: x ^= y; x -= rot(y, k); the next line works on the third word. */
  function Polish<W>(o: Ops<W>, s: Abc<W>, k: nat): (t: Abc<W>) {
    Abc(s.c, o.minus(o.xor(s.a, s.b), o.rot(s.b, k)), s.b)
  }

  /** final; the first line works on c with b. */
  function Final<W>(o: Ops<W>, s: Abc<W>): (c: W) {
    var t := Polish(o, Polish(o, Polish(o, Abc(s.c, s.b, s.a), 14), 11), 25);
    Polish(o, Polish(o, Polish(o, Polish(o, t, 16), 4), 14), 24).b
  }

  /** How the loops of jenkins_hash read the key: the word at a position of which m bytes belong to the key. */
  type Reader<!W> = (nat, nat) -> W

  /** How often the block loop runs. */
  function Blocks(n: nat): (k: nat)
    ensures 12 * k <= n <= 12 * k + 12 && (n == 12 * k <==> n == 0)
  {
    if n == 0 then 0 else (n - 1) / 12
  }

  function BlockAt<W>(read: Reader<W>, i: nat): (w: Abc<W>) {
    Abc(read(i, 4), read(i + 4, 4), read(i + 8, 4))
  }

  function BlocksOf<W>(read: Reader<W>, k: nat): (ws: seq<Abc<W>>)
    ensures |ws| == k && forall j | 0 <= j < k :: ws[j] == BlockAt(read, 12 * j)
  {
    seq(k, j requires 0 <= j => BlockAt(read, 12 * j))
  }

  /** How many bytes of a word belong to the key when `left` bytes are left at the word. */
  function Held(left: int): (m: nat)
    ensures m <= 4
  {
    if left < 0 then 0 else if left > 4 then 4 else left
  }

  function AddPart<W>(o: Ops<W>, x: W, read: Reader<W>, i: nat, m: nat): (y: W) {
    if m == 0 then x else o.plus(x, read(i, m))
  }

  function Tail<W>(o: Ops<W>, s: Abc<W>, read: Reader<W>, i: nat, left: nat): (t: Abc<W>) {
    Abc(AddPart(o, s.a, read, i, Held(left)), AddPart(o, s.b, read, i + 4, Held(left - 4)),
        AddPart(o, s.c, read, i + 8, Held(left - 8)))
  }

  /** The state at the end of the block loop. */
  function Looped<W>(o: Ops<W>, start: W, read: Reader<W>, n: nat): (s: Abc<W>) {
    Fold(Absorber(o), Abc(start, start, start), BlocksOf(read, Blocks(n)))
  }

  /** The state in front of final. */
  function Gathered<W>(o: Ops<W>, start: W, read: Reader<W>, n: nat): (s: Abc<W>) {
    Tail(o, Looped(o, start, read, n), read, 12 * Blocks(n), n - 12 * Blocks(n))
  }

  /** jenkins_hash of a key of n bytes. */
  function Hash<W>(o: Ops<W>, start: W, read: Reader<W>, n: nat): (c: W) {
    if n == 0 then start else Final(o, Gathered(o, start, read, n))
  }

  lemma HashOfWord<W>(o: Ops<W>, start: W, read: Reader<W>, n: nat)
    requires 0 < n <= 4
    ensures Hash(o, start, read, n) == Final(o, Abc(o.plus(start, read(0, n)), start, start))
  {
    assert Blocks(n) == 0 && BlocksOf(read, 0) == [];
  }

  ghost predicate Agree<W>(read: Reader<W>, read': Reader<W>, n: nat) {
    forall i: nat, m: nat | 0 < m <= 4 && i + m <= n :: read(i, m) == read'(i, m)
  }

  /** The hash depends on nothing but the key. */
  lemma SameReads<W>(o: Ops<W>, start: W, read: Reader<W>, read': Reader<W>, n: nat)
    requires Agree(read, read', n)
    ensures Hash(o, start, read, n) == Hash(o, start, read', n)
  {
    var k := Blocks(n);
    SameBlocks(read, read', n, k);
    if n > 0 { SameTail(o, Looped(o, start, read, n), read, read', 12 * k, n); }
  }

  lemma SameBlocks<W>(read: Reader<W>, read': Reader<W>, n: nat, k: nat)
    requires Agree(read, read', n) && 12 * k <= n
    ensures BlocksOf(read, k) == BlocksOf(read', k)
  {
    forall j | 0 <= j < k ensures BlockAt(read, 12 * j) == BlockAt(read', 12 * j) {
      assert 12 * j + 12 <= n;
    }
  }

  lemma SameTail<W>(o: Ops<W>, s: Abc<W>, read: Reader<W>, read': Reader<W>, i: nat, n: nat)
    requires Agree(read, read', n) && i < n <= i + 12
    ensures Tail(o, s, read, i, n - i) == Tail(o, s, read', i, n - i)
  {
  }

  datatype Four<B> = Four(b0: B, b1: B, b2: B, b3: B)

  /** How four bytes make a word of which m bytes belong to the key. */
  type Assembly<!B, !W> = (Four<B>, nat) -> W

  function ByteAt<B>(mem: seq<B>, i: nat, outside: B): (b: B) {
    if i < |mem| then mem[i] else outside
  }

  function FourAt<B>(mem: seq<B>, i: nat, outside: B): (x: Four<B>) {
    Four(ByteAt(mem, i, outside), ByteAt(mem, i + 1, outside), ByteAt(mem, i + 2, outside), ByteAt(mem, i + 3, outside))
  }

  function Reading<B, W>(f: Assembly<B, W>, mem: seq<B>, outside: B): (read: Reader<W>) {
    (i: nat, m: nat) => f(FourAt(mem, i, outside), m)
  }

  ghost predicate SameAssembly<B(!new), W>(f: Assembly<B, W>, g: Assembly<B, W>) {
    forall x, m: nat | 0 < m <= 4 :: f(x, m) == g(x, m)
  }

  /** Two words whose first m bytes are the same. */
  ghost predicate Alike<B>(x: Four<B>, y: Four<B>, m: nat) {
    && 0 < m <= 4 && x.b0 == y.b0
    && (m > 1 ==> x.b1 == y.b1) && (m > 2 ==> x.b2 == y.b2) && (m > 3 ==> x.b3 == y.b3)
  }

  /** Bytes that do not belong to the key do not count. */
  ghost predicate Local<B(!new), W>(f: Assembly<B, W>) {
    forall x, y, m: nat | Alike(x, y, m) :: f(x, m) == f(y, m)
  }

  lemma ReadingsAgree<B(!new), W>(f: Assembly<B, W>, g: Assembly<B, W>, mem: seq<B>, outside: B, n: nat)
    requires SameAssembly(f, g)
    ensures Agree(Reading(f, mem, outside), Reading(g, mem, outside), n)
  {
    forall i: nat, m: nat | 0 < m <= 4 && i + m <= n
      ensures Reading(f, mem, outside)(i, m) == Reading(g, mem, outside)(i, m)
    {
      assert f(FourAt(mem, i, outside), m) == g(FourAt(mem, i, outside), m);
    }
  }

  lemma PrefixAlike<B>(mem: seq<B>, outside: B, n: nat, i: nat, m: nat)
    requires n <= |mem| && 0 < m <= 4 && i + m <= n
    ensures Alike(FourAt(mem, i, outside), FourAt(mem[..n], i, outside), m)
  {
  }

  lemma PrefixAgrees<B(!new), W>(f: Assembly<B, W>, mem: seq<B>, outside: B, n: nat)
    requires Local(f) && n <= |mem|
    ensures Agree(Reading(f, mem, outside), Reading(f, mem[..n], outside), n)
  {
    forall i: nat, m: nat | 0 < m <= 4 && i + m <= n
      ensures Reading(f, mem, outside)(i, m) == Reading(f, mem[..n], outside)(i, m)
    {
      PrefixAlike(mem, outside, n, i, m);
    }
  }

  /** Two ways to assemble words that agree on the bytes of a key give the same hash, whatever lies behind the key. */
  lemma SameHash<B(!new), W>(
    o: Ops<W>, start: W, f: Assembly<B, W>, g: Assembly<B, W>, mem: seq<B>, outside: B, n: nat)
    requires SameAssembly(f, g) && Local(g) && n <= |mem|
    ensures Hash(o, start, Reading(f, mem, outside), n) == Hash(o, start, Reading(g, mem[..n], outside), n)
  {
    ReadingsAgree(f, g, mem, outside, n);
    PrefixAgrees(g, mem, outside, n);
    SameReads(o, start, Reading(f, mem, outside), Reading(g, mem, outside), n);
    SameReads(o, start, Reading(g, mem, outside), Reading(g, mem[..n], outside), n);
  }

  // ---------------------------------------------------------------- keys that differ in one block

  /** A whole word determines its bytes. */
  ghost predicate Faithful<B(!new), W>(f: Assembly<B, W>) {
    forall x, y | f(x, 4) == f(y, 4) :: x == y
  }

  ghost predicate DifferOnlyIn<B>(key: seq<B>, key': seq<B>, from: nat, to: nat) {
    |key| == |key'| && forall i | 0 <= i < |key| && !(from <= i < to) :: key[i] == key'[i]
  }

  lemma SameFour<B>(key: seq<B>, key': seq<B>, outside: B, from: nat, to: nat, i: nat)
    requires DifferOnlyIn(key, key', from, to) && i + 4 <= |key| && (i + 4 <= from || to <= i)
    ensures FourAt(key, i, outside) == FourAt(key', i, outside)
  {
  }

  lemma SameBlock<B, W>(f: Assembly<B, W>, key: seq<B>, key': seq<B>, outside: B, from: nat, to: nat, i: nat)
    requires DifferOnlyIn(key, key', from, to) && i + 12 <= |key| && (i + 12 <= from || to <= i)
    ensures BlockAt(Reading(f, key, outside), i) == BlockAt(Reading(f, key', outside), i)
  {
    SameFour(key, key', outside, from, to, i);
    SameFour(key, key', outside, from, to, i + 4);
    SameFour(key, key', outside, from, to, i + 8);
  }

  lemma BlockDetermines<B(!new), W>(f: Assembly<B, W>, key: seq<B>, key': seq<B>, outside: B, i: nat)
    requires Faithful(f) && DifferOnlyIn(key, key', i, i + 12) && i + 12 <= |key|
    requires BlockAt(Reading(f, key, outside), i) == BlockAt(Reading(f, key', outside), i)
    ensures key == key'
  {
    assert f(FourAt(key, i, outside), 4) == f(FourAt(key', i, outside), 4);
    assert f(FourAt(key, i + 4, outside), 4) == f(FourAt(key', i + 4, outside), 4);
    assert f(FourAt(key, i + 8, outside), 4) == f(FourAt(key', i + 8, outside), 4);
    FourTells(key, key', outside, i);
    FourTells(key, key', outside, i + 4);
    FourTells(key, key', outside, i + 8);
    forall p | 0 <= p < |key| ensures key[p] == key'[p] {
      if i <= p < i + 12 {
        assert key[p] == key'[p];
      }
    }
  }

  lemma FourTells<B>(key: seq<B>, key': seq<B>, outside: B, i: nat)
    requires |key| == |key'| && i + 4 <= |key| && FourAt(key, i, outside) == FourAt(key', i, outside)
    ensures forall p | i <= p < i + 4 :: key[p] == key'[p]
  {
    var x := FourAt(key, i, outside);
    assert x.b0 == key[i] && x.b1 == key[i + 1] && x.b2 == key[i + 2] && x.b3 == key[i + 3];
    var y := FourAt(key', i, outside);
    assert y.b0 == key'[i] && y.b1 == key'[i + 1] && y.b2 == key'[i + 2] && y.b3 == key'[i + 3];
  }

  /** Keys that differ in one block before the last reach different states at the end of the block loop. */
  lemma OneBlockDiffers<B(!new), W(!new)>(
    o: Ops<W>, s: Abc<W>, f: Assembly<B, W>, key: seq<B>, key': seq<B>, outside: B, j: nat, k: nat)
    requires Lawful(o) && Faithful(f) && j < k && 12 * k <= |key|
    requires DifferOnlyIn(key, key', 12 * j, 12 * j + 12)
    ensures
      Fold(Absorber(o), s, BlocksOf(Reading(f, key, outside), k))
      == Fold(Absorber(o), s, BlocksOf(Reading(f, key', outside), k))
      <==> key == key'
  {
    var bs, bs' := BlocksOf(Reading(f, key, outside), k), BlocksOf(Reading(f, key', outside), k);
    forall i | 0 <= i < k && i != j ensures bs[i] == bs'[i] {
      SameBlock(f, key, key', outside, 12 * j, 12 * j + 12, 12 * i);
    }
    assert bs == bs[..j] + [bs[j]] + bs[j + 1..];
    assert bs' == bs[..j] + [bs'[j]] + bs[j + 1..];
    OneBlockTells(o, s, bs[..j], bs[j], bs'[j], bs[j + 1..]);
    if bs[j] == bs'[j] { BlockDetermines(f, key, key', outside, 12 * j); }
  }

  /** A word of which m bytes belong to the key determines these bytes. */
  ghost predicate Telling<B(!new), W>(f: Assembly<B, W>) {
    forall x, y, m: nat | 0 < m <= 4 && f(x, m) == f(y, m) :: Alike(x, y, m)
  }

  lemma TellsAll<B(!new), W>(f: Assembly<B, W>)
    requires forall x, y | f(x, 1) == f(y, 1) :: x.b0 == y.b0
    requires forall x, y | f(x, 2) == f(y, 2) :: x.b0 == y.b0 && x.b1 == y.b1
    requires forall x, y | f(x, 3) == f(y, 3) :: x.b0 == y.b0 && x.b1 == y.b1 && x.b2 == y.b2
    requires Faithful(f)
    ensures Telling(f)
  {
  }

  lemma AddedTells<W(!new)>(o: Ops<W>, x: W, v: W, w: W)
    requires Lawful(o)
    ensures o.plus(x, v) == o.plus(x, w) <==> v == w
  {
    assert o.minus(o.plus(x, v), x) == v && o.minus(o.plus(x, w), x) == w;
  }

  /** A part of the last block that leaves the same word behind is the same. */
  lemma PartTells<B(!new), W(!new)>(
    o: Ops<W>, x: W, f: Assembly<B, W>, key: seq<B>, key': seq<B>, outside: B, i: nat, m: nat)
    requires Lawful(o) && Telling(f) && 0 < m <= 4 && i + m <= |key| == |key'|
    requires AddPart(o, x, Reading(f, key, outside), i, m) == AddPart(o, x, Reading(f, key', outside), i, m)
    ensures forall p | i <= p < i + m :: key[p] == key'[p]
  {
    var u, v := FourAt(key, i, outside), FourAt(key', i, outside);
    AddedTells(o, x, f(u, m), f(v, m));
    assert Alike(u, v, m);
    assert u.b0 == key[i] && v.b0 == key'[i];
    assert m > 1 ==> u.b1 == key[i + 1] && v.b1 == key'[i + 1];
    assert m > 2 ==> u.b2 == key[i + 2] && v.b2 == key'[i + 2];
    assert m > 3 ==> u.b3 == key[i + 3] && v.b3 == key'[i + 3];
  }

  /** The last block, of whatever length, is read completely. */
  lemma TailTells<B(!new), W(!new)>(
    o: Ops<W>, s: Abc<W>, f: Assembly<B, W>, key: seq<B>, key': seq<B>, outside: B, i: nat)
    requires Lawful(o) && Telling(f) && i < |key| == |key'| <= i + 12
    requires
      Tail(o, s, Reading(f, key, outside), i, |key| - i) == Tail(o, s, Reading(f, key', outside), i, |key| - i)
    ensures forall p | i <= p < |key| :: key[p] == key'[p]
  {
    var left := |key| - i;
    PartTells(o, s.a, f, key, key', outside, i, Held(left));
    if left > 4 { PartTells(o, s.b, f, key, key', outside, i + 4, Held(left - 4)); }
    if left > 8 { PartTells(o, s.c, f, key, key', outside, i + 8, Held(left - 8)); }
  }

  /** The last block does not bring two states together. */
  lemma TailApart<W(!new)>(o: Ops<W>, s: Abc<W>, t: Abc<W>, read: Reader<W>, i: nat, left: nat)
    requires Lawful(o) && Tail(o, s, read, i, left) == Tail(o, t, read, i, left)
    ensures s == t
  {
    PartApart(o, s.a, t.a, read, i, Held(left));
    PartApart(o, s.b, t.b, read, i + 4, Held(left - 4));
    PartApart(o, s.c, t.c, read, i + 8, Held(left - 8));
  }

  lemma PartApart<W(!new)>(o: Ops<W>, x: W, y: W, read: Reader<W>, i: nat, m: nat)
    requires Lawful(o) && AddPart(o, x, read, i, m) == AddPart(o, y, read, i, m)
    ensures x == y
  {
    if m > 0 {
      var w := read(i, m);
      assert o.minus(o.plus(x, w), w) == x && o.minus(o.plus(y, w), w) == y;
    }
  }

  lemma SameWord<B>(key: seq<B>, key': seq<B>, outside: B, from: nat, to: nat, i: nat)
    requires DifferOnlyIn(key, key', from, to) && to <= i
    ensures FourAt(key, i, outside) == FourAt(key', i, outside)
  {
  }

  lemma SameLast<B, W>(
    o: Ops<W>, s: Abc<W>, f: Assembly<B, W>, key: seq<B>, key': seq<B>, outside: B, from: nat, to: nat, i: nat)
    requires DifferOnlyIn(key, key', from, to) && to <= i <= |key|
    ensures Tail(o, s, Reading(f, key, outside), i, |key| - i) == Tail(o, s, Reading(f, key', outside), i, |key| - i)
  {
    SameWord(key, key', outside, from, to, i);
    SameWord(key, key', outside, from, to, i + 4);
    SameWord(key, key', outside, from, to, i + 8);
  }

  lemma SameBefore<B, W>(f: Assembly<B, W>, key: seq<B>, key': seq<B>, outside: B, k: nat)
    requires DifferOnlyIn(key, key', 12 * k, |key|) && 12 * k <= |key|
    ensures BlocksOf(Reading(f, key, outside), k) == BlocksOf(Reading(f, key', outside), k)
  {
    forall j | 0 <= j < k
      ensures BlockAt(Reading(f, key, outside), 12 * j) == BlockAt(Reading(f, key', outside), 12 * j)
    {
      SameBlock(f, key, key', outside, 12 * k, |key|, 12 * j);
    }
  }

  lemma TellingIsFaithful<B(!new), W>(f: Assembly<B, W>)
    requires Telling(f)
    ensures Faithful(f)
  {
    forall x, y | f(x, 4) == f(y, 4) ensures x == y {
      assert Alike(x, y, 4);
    }
  }

  lemma EarlierBlockTells<B(!new), W(!new)>(
    o: Ops<W>, start: W, f: Assembly<B, W>, key: seq<B>, key': seq<B>, outside: B, j: nat)
    requires Lawful(o) && Telling(f) && j < Blocks(|key|) && DifferOnlyIn(key, key', 12 * j, 12 * j + 12)
    requires
      Gathered(o, start, Reading(f, key, outside), |key|) == Gathered(o, start, Reading(f, key', outside), |key|)
    ensures key == key'
  {
    var n, k, read, read' := |key|, Blocks(|key|), Reading(f, key, outside), Reading(f, key', outside);
    var s, t := Looped(o, start, read, n), Looped(o, start, read', n);
    TellingIsFaithful(f);
    SameLast(o, t, f, key, key', outside, 12 * j, 12 * j + 12, 12 * k);
    TailApart(o, s, t, read, 12 * k, n - 12 * k);
    OneBlockDiffers(o, Abc(start, start, start), f, key, key', outside, j, k);
  }

  lemma LastBlockTells<B(!new), W(!new)>(
    o: Ops<W>, start: W, f: Assembly<B, W>, key: seq<B>, key': seq<B>, outside: B)
    requires Lawful(o) && Telling(f) && key != [] && DifferOnlyIn(key, key', 12 * Blocks(|key|), |key|)
    requires
      Gathered(o, start, Reading(f, key, outside), |key|) == Gathered(o, start, Reading(f, key', outside), |key|)
    ensures key == key'
  {
    var n, k := |key|, Blocks(|key|);
    SameBefore(f, key, key', outside, k);
    TailTells(o, Looped(o, start, Reading(f, key, outside), n), f, key, key', outside, 12 * k);
  }

  /** Two keys of one length that differ in no more than one block, the last and unfinished one
      included, reach the same state in front of final if and only if they are equal. */
  lemma OneBlockDecides<B(!new), W(!new)>(
    o: Ops<W>, start: W, f: Assembly<B, W>, key: seq<B>, key': seq<B>, outside: B, j: nat)
    requires Lawful(o) && Telling(f) && key != [] && DifferOnlyIn(key, key', 12 * j, 12 * j + 12)
    ensures
      Gathered(o, start, Reading(f, key, outside), |key|) == Gathered(o, start, Reading(f, key', outside), |key|)
      <==> key == key'
  {
    if Gathered(o, start, Reading(f, key, outside), |key|) == Gathered(o, start, Reading(f, key', outside), |key|) {
      if j < Blocks(|key|) {
        EarlierBlockTells(o, start, f, key, key', outside, j);
      } else {
        LastBlockTells(o, start, f, key, key', outside);
      }
    }
  }
}
