/** The directory a new file goes to: a mixed-radix counter (src/dataserver/ds_block.c). */
module DirectoryAllocator {
  import Powers

  /** block_sub_count and block_max_file_count. */
  datatype Limits = Limits(subs: nat, files: nat)

  /** pre_path_map, suf_path_map and curr_path_map_file_count of a mount block. */
  datatype Place = Place(pre: nat, suf: nat, count: nat)

  ghost predicate InRange(l: Limits, p: Place) {
    p.pre < l.subs && p.suf < l.subs && p.count < l.files
  }

  /** __block_map_path_polling */
  function Advance(l: Limits, p: Place): (r: Place) {
    if p.count + 1 >= l.files then
      if p.suf + 1 >= l.subs then Place(if p.pre + 1 >= l.subs then 0 else p.pre + 1, 0, 0)
      else Place(p.pre, p.suf + 1, 0)
    else Place(p.pre, p.suf, p.count + 1)
  }

  ghost function Directory(l: Limits, p: Place): (d: nat) {
    p.pre * l.subs + p.suf
  }

  ghost function Value(l: Limits, p: Place): (v: nat) {
    Directory(l, p) * l.files + p.count
  }

  ghost function Total(l: Limits): (t: nat) {
    l.subs * l.subs * l.files
  }

  lemma Product(a: nat, b: nat, m: nat)
    requires a <= b
    ensures a * m <= b * m
  {
  }

  lemma DirectoryBound(l: Limits, p: Place)
    requires InRange(l, p)
    ensures Directory(l, p) + 1 <= l.subs * l.subs
  {
    Product(p.pre + 1, l.subs, l.subs);
  }

  lemma ValueBound(l: Limits, p: Place)
    requires InRange(l, p)
    ensures Value(l, p) < Total(l)
  {
    DirectoryBound(l, p);
    Product(Directory(l, p) + 1, l.subs * l.subs, l.files);
  }

  lemma NextDirectory(l: Limits, p: Place)
    requires InRange(l, p) && p.count + 1 >= l.files
    ensures
      var d := Directory(l, Advance(l, p));
      if p.suf + 1 >= l.subs && p.pre + 1 >= l.subs then d == 0 && Directory(l, p) + 1 == l.subs * l.subs
      else d == Directory(l, p) + 1
  {
  }

  lemma CarryNumbers(d: nat, e: nat, all: nat, m: nat, v: nat)
    requires m > 0 && v == d * m + m - 1 && ((e == 0 && d + 1 == all) || (e == d + 1 && e < all))
    ensures e * m == if v + 1 == all * m then 0 else v + 1
  {
    assert v + 1 == (d + 1) * m;
    if d + 1 < all { Product(d + 2, all, m); }
  }

  lemma CarryDirectory(l: Limits, p: Place, q: Place)
    requires InRange(l, p) && p.count + 1 >= l.files && q == Advance(l, p)
    ensures var d, e, all := Directory(l, p), Directory(l, q), l.subs * l.subs;
            q.count == 0 && ((e == 0 && d + 1 == all) || (e == d + 1 && e < all))
  {
    NextDirectory(l, p);
    DirectoryBound(l, q);
  }

  /** A full directory: the next value begins the next one, or the first. */
  lemma CarryCounts(l: Limits, p: Place)
    requires InRange(l, p) && p.count + 1 >= l.files
    ensures Value(l, Advance(l, p)) == if Value(l, p) + 1 == Total(l) then 0 else Value(l, p) + 1
  {
    var q := Advance(l, p);
    CarryDirectory(l, p, q);
    CarryNumbers(Directory(l, p), Directory(l, q), l.subs * l.subs, l.files, Value(l, p));
  }

  /** One allocation adds one to the number whose digits are the three fields. */
  lemma AdvanceCounts(l: Limits, p: Place)
    requires InRange(l, p)
    ensures InRange(l, Advance(l, p)) && Value(l, Advance(l, p)) == (Value(l, p) + 1) % Total(l)
  {
    ValueBound(l, Advance(l, p));
    if p.count + 1 >= l.files { CarryCounts(l, p); }
    if Value(l, p) + 1 == Total(l) { Wraps(Total(l)); } else { Small(Value(l, p) + 1, Total(l)); }
  }

  lemma Small(v: nat, t: nat)
    requires v < t
    ensures v % t == v
  {
  }

  lemma Wraps(t: nat)
    requires t > 0
    ensures t % t == 0
  {
  }

  /** The place after k allocations. */
  ghost function After(l: Limits, p: Place, k: nat): (r: Place) {
    if k == 0 then p else Advance(l, After(l, p, k - 1))
  }

  lemma ModMore(v: nat, t: nat)
    requires t > 0
    ensures (v % t + 1) % t == (v + 1) % t
  {
    var q, r := v / t, v % t;
    assert v + 1 == q * t + (r + 1);
    if r + 1 < t {
      Powers.ModUnique(v + 1, t, q, r + 1);
    } else {
      assert v + 1 == (q + 1) * t + 0;
      Powers.ModUnique(v + 1, t, q + 1, 0);
    }
  }

  /** k allocations add k, modulo the number of places. */
  lemma {:induction false} AfterCounts(l: Limits, p: Place, k: nat)
    requires InRange(l, p)
    ensures InRange(l, After(l, p, k)) && Total(l) > 0
    ensures Value(l, After(l, p, k)) == (Value(l, p) + k) % Total(l)
  {
    ValueBound(l, p);
    if k == 0 {
      Small(Value(l, p), Total(l));
    } else {
      AfterCounts(l, p, k - 1);
      AdvanceCounts(l, After(l, p, k - 1));
      ModMore(Value(l, p) + k - 1, Total(l));
    }
  }

  /** The first value that lies in directory d. */
  ghost function First(l: Limits, d: nat): (v: nat) {
    d * l.files
  }

  /** How many of the next k files go to directory d. */
  ghost function Placed(l: Limits, p: Place, k: nat, d: nat): (n: nat) {
    if k == 0 then 0 else Placed(l, p, k - 1, d) + if Directory(l, After(l, p, k)) == d then 1 else 0
  }

  /** How many of the k numbers after v have their remainder in [lo, lo + m). */
  ghost function Hits(v: int, k: nat, t: nat, lo: nat, m: nat): (n: nat)
    requires t > 0
  {
    if k == 0 then 0 else Hits(v, k - 1, t, lo, m) + Hit(v + k, t, lo, m)
  }

  ghost function Hit(x: int, t: nat, lo: nat, m: nat): (n: nat)
    requires t > 0
  {
    if lo <= x % t < lo + m then 1 else 0
  }

  lemma {:induction false} HitsFirst(v: int, k: nat, t: nat, lo: nat, m: nat)
    requires t > 0
    ensures Hits(v, k + 1, t, lo, m) == Hit(v + 1, t, lo, m) + Hits(v + 1, k, t, lo, m)
  {
    if k > 0 { HitsFirst(v, k - 1, t, lo, m); }
  }

  lemma HitPeriod(x: nat, t: nat, lo: nat, m: nat)
    requires t > 0
    ensures Hit(x + t, t, lo, m) == Hit(x, t, lo, m)
  {
    var q, r := x / t, x % t;
    assert x + t == (q + 1) * t + r;
    Powers.ModUnique(x + t, t, q + 1, r);
  }

  lemma {:induction false} HitsBelow(k: nat, t: nat, lo: nat, m: nat)
    requires k <= t && t > 0
    ensures Hits(-1, k, t, lo, m) == if k <= lo then 0 else if k <= lo + m then k - lo else m
  {
    if k > 0 {
      HitsBelow(k - 1, t, lo, m);
      Small(k - 1, t);
    }
  }

  /** A full period hits every remainder once, wherever it starts. */
  lemma {:induction false} HitsPeriod(v: int, t: nat, lo: nat, m: nat)
    requires v >= -1 && lo + m <= t && t > 0
    ensures Hits(v, t, t, lo, m) == m
    decreases v
  {
    if v == -1 {
      HitsBelow(t, t, lo, m);
    } else {
      HitsPeriod(v - 1, t, lo, m);
      HitsFirst(v - 1, t, t, lo, m);
      HitPeriod(v, t, lo, m);
    }
  }

  lemma InDirectory(l: Limits, p: Place, d: nat)
    requires InRange(l, p)
    ensures Directory(l, p) == d <==> First(l, d) <= Value(l, p) < First(l, d) + l.files
  {
    var e := Directory(l, p);
    if e < d { Product(e + 1, d, l.files); }
    if d < e { Product(d + 1, e, l.files); }
  }

  lemma {:induction false} PlacedAre(l: Limits, p: Place, k: nat, d: nat)
    requires InRange(l, p)
    ensures Total(l) > 0 && Placed(l, p, k, d) == Hits(Value(l, p), k, Total(l), First(l, d), l.files)
  {
    ValueBound(l, p);
    if k > 0 {
      PlacedAre(l, p, k - 1, d);
      AfterCounts(l, p, k);
      InDirectory(l, After(l, p, k), d);
    }
  }

  /** Of any full round of consecutive files every directory gets exactly block_max_file_count. */
  lemma FillsEvenly(l: Limits, p: Place, d: nat)
    requires InRange(l, p) && d < l.subs * l.subs
    ensures Placed(l, p, Total(l), d) == l.files
  {
    PlacedAre(l, p, Total(l), d);
    FirstBound(l, d);
    HitsPeriod(Value(l, p), Total(l), First(l, d), l.files);
  }

  lemma FirstBound(l: Limits, d: nat)
    requires d < l.subs * l.subs
    ensures First(l, d) + l.files <= Total(l)
  {
    Product(d + 1, l.subs * l.subs, l.files);
  }

  /** What the configured numbers come to: polling counts before it compares, so zero and less work
      like one. */
  ghost function AtLeastOne(subs: int, files: int): (l: Limits)
    ensures InRange(l, Place(0, 0, 0))
  {
    Limits(if subs < 1 then 1 else subs, if files < 1 then 1 else files)
  }

  /** The part of a mount block that __block_map_path_polling updates. */
  class MountBlock {
    var pre: nat
    var suf: nat
    var count: nat

    ghost function At(): (p: Place)
      reads this
    {
      Place(pre, suf, count)
    }

    constructor ()
      ensures At() == Place(0, 0, 0)
    {
      pre, suf, count := 0, 0, 0;
    }

    /** __block_map_path_polling: the directory for the next file. */
    method Poll(subs: int, files: int) returns (p: nat, s: nat)
      requires InRange(AtLeastOne(subs, files), At())
      modifies this
      ensures InRange(AtLeastOne(subs, files), At()) && p == pre && s == suf
      ensures At() == Advance(AtLeastOne(subs, files), old(At()))
      ensures
        var l := AtLeastOne(subs, files);
        Value(l, At()) == (old(Value(AtLeastOne(subs, files), At())) + 1) % Total(l)
    {
      AdvanceCounts(AtLeastOne(subs, files), At());
      var curr := count + 1;
      if curr >= files {
        count := 0;
        suf := suf + 1;
        if suf >= subs {
          pre := pre + 1;
          if pre >= subs { pre := 0; }
          suf := 0;
        }
      } else {
        count := curr;
      }
      p, s := pre, suf;
    }
  }
}
