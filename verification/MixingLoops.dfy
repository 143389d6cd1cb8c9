/** The macros and the loop of jenkins_hash, over any words. */
module MixingLoops {
  import opened Folding
  import opened Mixing

  /** The mix macro. */
  method MixState<W>(o: Ops<W>, a0: W, b0: W, c0: W) returns (a: W, b: W, c: W)
    ensures Abc(a, b, c) == Mix(o, Abc(a0, b0, c0))
  {
    a, b, c := a0, b0, c0;
    a := o.minus(a, c); a := o.xor(a, o.rot(c, 4)); c := o.plus(c, b);
    b := o.minus(b, a); b := o.xor(b, o.rot(a, 6)); a := o.plus(a, c);
    c := o.minus(c, b); c := o.xor(c, o.rot(b, 8)); b := o.plus(b, a);
    a := o.minus(a, c); a := o.xor(a, o.rot(c, 16)); c := o.plus(c, b);
    b := o.minus(b, a); b := o.xor(b, o.rot(a, 19)); a := o.plus(a, c);
    c := o.minus(c, b); c := o.xor(c, o.rot(b, 4)); b := o.plus(b, a);
    MixIs(o, Abc(a0, b0, c0));
  }

  /** The final macro. */
  method FinalState<W>(o: Ops<W>, a0: W, b0: W, c0: W) returns (c: W)
    ensures c == Final(o, Abc(a0, b0, c0))
  {
    var a, b := a0, b0;
    c := o.xor(c0, b); c := o.minus(c, o.rot(b, 14));
    a := o.xor(a, c); a := o.minus(a, o.rot(c, 11));
    b := o.xor(b, a); b := o.minus(b, o.rot(a, 25));
    c := o.xor(c, b); c := o.minus(c, o.rot(b, 16));
    a := o.xor(a, c); a := o.minus(a, o.rot(c, 4));
    b := o.xor(b, a); b := o.minus(b, o.rot(a, 14));
    c := o.xor(c, b); c := o.minus(c, o.rot(b, 24));
  }

  /** One more round of the block loop. */
  lemma FoldMore<W>(o: Ops<W>, s: Abc<W>, read: Reader<W>, k: nat)
    ensures
      Fold(Absorber(o), s, BlocksOf(read, k + 1))
      == Mix(o, Plus(o, Fold(Absorber(o), s, BlocksOf(read, k)), BlockAt(read, 12 * k)))
  {
    assert BlocksOf(read, k + 1)[..k] == BlocksOf(read, k);
  }

  lemma BlocksUnique(n: nat, k: nat)
    requires 12 * k <= n <= 12 * k + 12 && (n > 0 ==> n > 12 * k)
    ensures k == Blocks(n)
  {
  }

  /** The block loop; i is where the last block begins. */
  method RunBlocks<B, W>(o: Ops<W>, start: W, f: Assembly<B, W>, mem: seq<B>, outside: B, n: nat)
    returns (a: W, b: W, c: W, i: nat)
    ensures i == 12 * Blocks(n)
    ensures
      Abc(a, b, c) == Looped(o, start, Reading(f, mem, outside), n)
  {
    ghost var read := Reading(f, mem, outside);
    ghost var k := 0;
    a, b, c, i := start, start, start, 0;
    var length := n;
    assert BlocksOf(read, 0) == [];
    while length > 12
      invariant i == 12 * k && n == i + length && (n > 0 ==> length > 0)
      invariant Abc(a, b, c) == Fold(Absorber(o), Abc(start, start, start), BlocksOf(read, k))
    {
      FoldMore(o, Abc(start, start, start), read, k);
      a := o.plus(a, f(FourAt(mem, i, outside), 4));
      b := o.plus(b, f(FourAt(mem, i + 4, outside), 4));
      c := o.plus(c, f(FourAt(mem, i + 8, outside), 4));
      a, b, c := MixState(o, a, b, c);
      i, length, k := i + 12, length - 12, k + 1;
    }
    BlocksUnique(n, k);
  }

  /** The switch on what is left of the key: an addition for every word that it still reaches. */
  method AddTail<B, W>(
    o: Ops<W>, f: Assembly<B, W>, mem: seq<B>, outside: B, i: nat, left: nat, a0: W, b0: W, c0: W)
    returns (a: W, b: W, c: W)
    requires 0 < left <= 12
    ensures Abc(a, b, c) == Tail(o, Abc(a0, b0, c0), Reading(f, mem, outside), i, left)
  {
    a, b, c := a0, b0, c0;
    if left > 8 { c := o.plus(c, f(FourAt(mem, i + 8, outside), Held(left - 8))); }
    if left > 4 { b := o.plus(b, f(FourAt(mem, i + 4, outside), Held(left - 4))); }
    a := o.plus(a, f(FourAt(mem, i, outside), Held(left)));
  }

  /** jenkins_hash with the branch that assembles words by f. */
  method HashKey<B, W>(o: Ops<W>, start: W, f: Assembly<B, W>, mem: seq<B>, outside: B, n: nat) returns (c: W)
    ensures c == Hash(o, start, Reading(f, mem, outside), n)
  {
    var a, b, i;
    a, b, c, i := RunBlocks(o, start, f, mem, outside, n);
    if n - i == 0 { return; }
    a, b, c := AddTail(o, f, mem, outside, i, n - i, a, b, c);
    c := FinalState(o, a, b, c);
  }
}
