/** The tracker's volume hash: two live tables, a migration cursor, striped locks. */
module VolumeHash {
  import opened Options
  import opened Powers

  // ---- one table of chains

  /** A bucket is the chain of its volumes, a volume is its id. */
  type Table = seq<seq<nat>>

  ghost predicate NoDup(s: seq<nat>) {
    forall i, j | 0 <= i < j < |s| :: s[i] != s[j]
  }

  /** 2^power buckets, every volume in its own, no volume twice. */
  ghost predicate Filed(table: Table, power: nat) {
    && |table| == Pow2(power)
    && (forall b, v | 0 <= b < |table| && v in table[b] :: Slot(v, power) == b)
    && (forall b | 0 <= b < |table| :: NoDup(table[b]))
  }

  predicate Has(table: Table, power: nat, v: nat)
    requires |table| == Pow2(power)
  {
    v in table[Slot(v, power)]
  }

  /** A volume goes in at the head of its chain. */
  function Push(table: Table, power: nat, id: nat): (r: Table)
    requires |table| == Pow2(power)
    ensures |r| == Pow2(power)
  {
    table[Slot(id, power) := [id] + table[Slot(id, power)]]
  }

  lemma PushFiled(table: Table, power: nat, id: nat)
    requires Filed(table, power) && !Has(table, power, id)
    ensures Filed(Push(table, power, id), power)
    ensures forall v: nat :: Has(Push(table, power, id), power, v) <==> Has(table, power, v) || v == id
  {
    var b, r := Slot(id, power), Push(table, power, id);
    assert forall v :: v in r[b] <==> v in table[b] || v == id;
  }

  /** The walk along one old chain: each volume to the head of its new chain. */
  function PushAll(table: Table, power: nat, chain: seq<nat>): (r: Table)
    requires |table| == Pow2(power)
    ensures |r| == Pow2(power)
    decreases |chain|
  {
    if chain == [] then table else PushAll(Push(table, power, chain[0]), power, chain[1..])
  }

  lemma {:induction false} PushAllFiled(table: Table, power: nat, chain: seq<nat>)
    requires Filed(table, power) && NoDup(chain) && forall v | v in chain :: !Has(table, power, v)
    ensures Filed(PushAll(table, power, chain), power)
    ensures forall v: nat :: Has(PushAll(table, power, chain), power, v) <==> Has(table, power, v) || v in chain
    decreases |chain|
  {
    if chain != [] {
      PushFiled(table, power, chain[0]);
      assert forall v :: v in chain <==> v == chain[0] || v in chain[1..];
      assert chain[0] !in chain[1..];
      PushAllFiled(Push(table, power, chain[0]), power, chain[1..]);
    }
  }

  lemma ClearFiled(table: Table, power: nat, b: nat)
    requires Filed(table, power) && b < |table|
    ensures Filed(table[b := []], power)
    ensures forall v: nat :: Has(table[b := []], power, v) <==> Has(table, power, v) && Slot(v, power) != b
  {
  }

  // ---- two tables

  /** datasevr_cluster as a value: `power` is hash_size, `bucket` is expand_bucket. */
  datatype Tables = Tables(primary: Table, previous: Table, power: nat, bucket: nat, expanding: bool)

  /** The test of __do_find: does the id still live in the old table? */
  predicate InOld(t: Tables, id: nat) {
    t.expanding && t.power > 0 && Slot(id, t.power - 1) >= t.bucket
  }

  /** The buckets before `bucket` are empty. */
  ghost predicate AllFrom(table: Table, power: nat, bucket: nat)
    requires |table| == Pow2(power)
  {
    forall v: nat | Has(table, power, v) :: Slot(v, power) >= bucket
  }

  ghost predicate Valid(t: Tables) {
    && Filed(t.primary, t.power)
    && (forall v: nat | Has(t.primary, t.power, v) :: !InOld(t, v))
    && (t.expanding ==>
          && t.power > 0 && Filed(t.previous, t.power - 1) && t.bucket < |t.previous|
          && AllFrom(t.previous, t.power - 1, t.bucket))
    && (!t.expanding ==> t.previous == [])
  }

  /** The chain __do_find walks. */
  function Chain(t: Tables, id: nat): (c: seq<nat>)
    requires |t.primary| == Pow2(t.power) && (t.expanding ==> t.power > 0 && |t.previous| == Pow2(t.power - 1))
  {
    if InOld(t, id) then t.previous[Slot(id, t.power - 1)] else t.primary[Slot(id, t.power)]
  }

  /** The plain set the tables stand for. */
  ghost predicate Holds(t: Tables, id: nat)
    requires Valid(t)
  {
    if InOld(t, id) then Has(t.previous, t.power - 1, id) else Has(t.primary, t.power, id)
  }

  /** A volume anywhere in the tables is in the one chain find walks, once. */
  lemma ExactlyOnce(t: Tables, b: nat, id: nat)
    requires Valid(t)
    requires (b < |t.primary| && id in t.primary[b]) || (t.expanding && b < |t.previous| && id in t.previous[b])
    ensures Holds(t, id) && id in Chain(t, id) && NoDup(Chain(t, id))
    ensures b < |t.primary| && id in t.primary[b] ==> b == Slot(id, t.power) && !InOld(t, id)
    ensures t.expanding && b < |t.previous| && id in t.previous[b] ==> b == Slot(id, t.power - 1) && InOld(t, id)
  {
    if b < |t.primary| && id in t.primary[b] { assert Has(t.primary, t.power, id); }
    if t.expanding && b < |t.previous| && id in t.previous[b] { assert Has(t.previous, t.power - 1, id); }
  }

  // ---- do_cluster_insert

  /** The literal code masks the old bucket with the new table's size; None is a write outside
      the old table. */
  function InsertId(t: Tables, id: nat): (r: Option<Tables>)
    requires |t.primary| == Pow2(t.power) && (t.expanding ==> t.power > 0 && |t.previous| == Pow2(t.power - 1))
  {
    var b := Slot(id, t.power);
    if t.expanding && b >= t.bucket then
      if b < |t.previous| then Some(t.(previous := t.previous[b := [id] + t.previous[b]])) else None
    else Some(t.(primary := Push(t.primary, t.power, id)))
  }

  lemma InsertPrimary(t: Tables, id: nat)
    requires Valid(t) && !Holds(t, id) && !InOld(t, id)
    ensures var t' := t.(primary := Push(t.primary, t.power, id));
            Valid(t') && forall v: nat :: Holds(t', v) <==> Holds(t, v) || v == id
  {
    PushFiled(t.primary, t.power, id);
  }

  lemma InsertOld(t: Tables, id: nat)
    requires Valid(t) && !Holds(t, id) && InOld(t, id)
    ensures var t' := t.(previous := Push(t.previous, t.power - 1, id));
            Valid(t') && forall v: nat :: Holds(t', v) <==> Holds(t, v) || v == id
  {
    PushFiled(t.previous, t.power - 1, id);
  }

  /** An insert of a new id works exactly when no expansion is under way or the id's new top
      bit is 0; then it adds the id and moves nothing. */
  lemma InsertExact(t: Tables, id: nat)
    requires Valid(t) && !Holds(t, id)
    ensures InsertId(t, id).Some? <==> !t.expanding || Slot(id, t.power) < Pow2(t.power - 1)
    ensures InsertId(t, id).Some? ==>
              && Valid(InsertId(t, id).value)
              && forall v: nat :: Holds(InsertId(t, id).value, v) <==> Holds(t, v) || v == id
  {
    if t.expanding { SlotStep(id, t.power); }
    if InsertId(t, id).Some? {
      if InOld(t, id) {
        assert InsertId(t, id) == Some(t.(previous := Push(t.previous, t.power - 1, id)));
        InsertOld(t, id);
      } else {
        assert InsertId(t, id) == Some(t.(primary := Push(t.primary, t.power, id)));
        InsertPrimary(t, id);
      }
    }
  }

  /** While a table of two buckets grows to four, volume 2 cannot be inserted. */
  lemma InsertFails()
    ensures var t := Tables([[], [], [], []], [[], []], 2, 0, true);
            Valid(t) && !Holds(t, 2) && InsertId(t, 2) == None
  {
    assert Pow2(2) == 4 && Pow2(1) == 2 && Slot(2, 2) == 2;
  }

  // ---- the maintenance thread

  /** __cluster_expand */
  function Expand(t: Tables): (r: Tables) {
    Tables(Empty(Pow2(t.power + 1)), t.primary, t.power + 1, 0, true)
  }

  lemma ExpandKeeps(t: Tables)
    requires Valid(t) && !t.expanding
    ensures Valid(Expand(t)) && forall v: nat :: Holds(Expand(t), v) <==> Holds(t, v)
  {
  }

  /** One round of the maintenance loop: bucket `t.bucket` moves, the last one ends the expansion. */
  function Migrate(t: Tables): (r: Tables)
    requires |t.primary| == Pow2(t.power) && t.bucket < |t.previous|
  {
    var t' := t.(primary := PushAll(t.primary, t.power, t.previous[t.bucket]),
                 previous := t.previous[t.bucket := []], bucket := t.bucket + 1);
    if t'.bucket == |t.previous| then t'.(expanding := false, previous := []) else t'
  }

  /** Migration moves volumes, but never in or out of what find sees. */
  lemma MigrateKeeps(t: Tables)
    requires Valid(t) && t.expanding
    ensures Valid(Migrate(t)) && forall v: nat :: Holds(Migrate(t), v) <==> Holds(t, v)
  {
    var chain := t.previous[t.bucket];
    forall v: nat ensures v in chain <==> Has(t.previous, t.power - 1, v) && Slot(v, t.power - 1) == t.bucket { }
    PushAllFiled(t.primary, t.power, chain);
    ClearFiled(t.previous, t.power - 1, t.bucket);
    assert AllFrom(t.previous[t.bucket := []], t.power - 1, t.bucket + 1);
  }

  // ---- every reachable state

  datatype Event = Add(id: nat) | Grow | Move

  /** An insert comes after a failed find, an expansion when none is under way, a move when one is. */
  ghost predicate Enabled(t: Tables, e: Event)
    requires Valid(t)
  {
    match e
    case Add(id) => !Holds(t, id) && InsertId(t, id).Some?
    case Grow => !t.expanding
    case Move => t.expanding
  }

  ghost function Next(t: Tables, e: Event): (t': Tables)
    requires Valid(t) && Enabled(t, e)
    ensures Valid(t')
    ensures forall v: nat :: Holds(t', v) <==> Holds(t, v) || e == Add(v)
  {
    match e
    case Add(id) => InsertExact(t, id); InsertId(t, id).value
    case Grow => ExpandKeeps(t); Expand(t)
    case Move => MigrateKeeps(t); Migrate(t)
  }

  ghost predicate Runs(t: Tables, es: seq<Event>)
    requires Valid(t)
    decreases |es|
  {
    es != [] ==> Enabled(t, es[0]) && Runs(Next(t, es[0]), es[1..])
  }

  ghost function Final(t: Tables, es: seq<Event>): (t': Tables)
    requires Valid(t) && Runs(t, es)
    ensures Valid(t')
    decreases |es|
  {
    if es == [] then t else Final(Next(t, es[0]), es[1..])
  }

  /** Any interleaving of inserts, expansions and bucket moves is a plain set of ids. */
  lemma {:induction false} RunIsSet(t: Tables, es: seq<Event>, v: nat)
    requires Valid(t) && Runs(t, es)
    ensures Holds(Final(t, es), v) <==> Holds(t, v) || Add(v) in es
    decreases |es|
  {
    if es != [] {
      RunIsSet(Next(t, es[0]), es[1..], v);
      assert Add(v) in es <==> es[0] == Add(v) || Add(v) in es[1..];
    }
  }

  // ---- lock striping

  /** Ids under different locks never share a bucket. */
  ghost predicate Striped(locks: nat, power: nat) {
    forall a: nat, b: nat :: Slot(a, power) == Slot(b, power) ==> Slot(a, locks) == Slot(b, locks)
  }

  /** Ids under different locks never share a bucket exactly when there are no more locks than
      buckets. */
  lemma StripingExact(locks: nat, power: nat)
    ensures Striped(locks, power) <==> locks <= power
  {
    if locks <= power {
      forall a: nat, b: nat | Slot(a, power) == Slot(b, power) ensures Slot(a, locks) == Slot(b, locks) {
        SlotCoarser(a, b, locks, power);
      }
    } else {
      var a, b := 0, Pow2(power);
      SlotIsMod(b, power);
      ModUnique(b, Pow2(power), 1, 0);
      Pow2Grows(power, locks);
      SlotSmall(a, power);
      SlotSmall(a, locks);
      SlotSmall(b, locks);
      assert Slot(a, power) == Slot(b, power) && Slot(a, locks) != Slot(b, locks);
    }
  }

  /** A table in use has two to this many buckets. */
  ghost predicate InUse(t: Tables, power: nat) {
    |t.primary| == Pow2(power) || (t.expanding && |t.previous| == Pow2(power))
  }

  lemma SamePower(m: nat, n: nat)
    requires Pow2(m) == Pow2(n)
    ensures m == n
  {
    if m < n { Pow2Grows(m, n); }
    if n < m { Pow2Grows(n, m); }
  }

  lemma UsedPowers(t: Tables, power: nat)
    requires Valid(t)
    ensures InUse(t, power) <==> power == t.power || (t.expanding && power == t.power - 1)
  {
    if |t.primary| == Pow2(power) { SamePower(power, t.power); }
    if t.expanding && |t.previous| == Pow2(power) { SamePower(power, t.power - 1); }
  }

  lemma WidensStep(t: Tables, e: Event, least: nat)
    requires Valid(t) && Enabled(t, e) && forall p: nat | InUse(t, p) :: least <= p
    ensures forall p: nat | InUse(Next(t, e), p) :: least <= p
  {
    UsedPowers(t, t.power);
    if t.expanding { UsedPowers(t, t.power - 1); }
    forall p: nat | InUse(Next(t, e), p) ensures least <= p { UsedPowers(Next(t, e), p); }
  }

  /** No run uses a table smaller than all that were in use. */
  lemma {:induction false} RunWidens(t: Tables, es: seq<Event>, least: nat)
    requires Valid(t) && Runs(t, es) && forall p: nat | InUse(t, p) :: least <= p
    ensures forall p: nat | InUse(Final(t, es), p) :: least <= p
    decreases |es|
  {
    if es != [] {
      WidensStep(t, es[0], least);
      RunWidens(Next(t, es[0]), es[1..], least);
    }
  }

  /** __cluster_lock_init: the locks number two to the power of this. */
  function LockPower(power: nat, threads: nat): (locks: nat)
    requires threads > 0
  {
    Pow2(power) / threads
  }

  lemma QuotientBound(x: nat, t: nat, p: nat)
    requires t > 0
    ensures x / t <= p <==> x < (p + 1) * t
  {
    var q := x / t;
    assert x == q * t + x % t;
    if q <= p { assert (q + 1) * t <= (p + 1) * t by { MulUp(q + 1, p + 1, t); } }
    if q > p { assert (p + 1) * t <= q * t by { MulUp(p + 1, q, t); } }
  }

  lemma MulUp(a: nat, b: nat, t: nat)
    requires a <= b
    ensures a * t <= b * t
  {
  }

  /** A run that begins with a table of 2^power buckets, none of it being expanded, and uses one of 2^p
      buckets at its end. */
  ghost predicate Uses(t: Tables, es: seq<Event>, power: nat, p: nat) {
    Valid(t) && !t.expanding && t.power == power && Runs(t, es) && InUse(Final(t, es), p)
  }

  /** With the locks that __cluster_lock_init makes, ids under different locks never share a bucket of
      a table in use, in any run from its table, if and only if there are threads enough. */
  lemma LockInitExact(power: nat, threads: nat)
    requires threads > 0
    ensures (forall t, es, p: nat | Uses(t, es, power, p) :: Striped(LockPower(power, threads), p))
        <==> Pow2(power) < (power + 1) * threads
  {
    var locks := LockPower(power, threads);
    QuotientBound(Pow2(power), threads, power);
    if locks <= power {
      forall t, es, p: nat | Uses(t, es, power, p) ensures Striped(locks, p) {
        forall q: nat | InUse(t, q) ensures power <= q { UsedPowers(t, q); }
        RunWidens(t, es, power);
        StripingExact(locks, p);
      }
    } else {
      var t := Tables(Empty(Pow2(power)), [], power, 0, false);
      assert Uses(t, [], power, power);
      StripingExact(locks, power);
    }
  }

  /** The default table of four buckets needs two threads. */
  lemma DefaultNeedsTwoThreads(threads: nat)
    requires threads > 0
    ensures (forall t, es, p: nat | Uses(t, es, 2, p) :: Striped(LockPower(2, threads), p)) <==> threads >= 2
  {
    LockInitExact(2, threads);
    assert Pow2(2) == 4;
  }

  lemma {:induction false} PushAllTouches(table: Table, power: nat, chain: seq<nat>, c: nat)
    requires |table| == Pow2(power) && c < |table| && forall v | v in chain :: Slot(v, power) != c
    ensures PushAll(table, power, chain)[c] == table[c]
    decreases |chain|
  {
    if chain != [] {
      assert chain[0] in chain && forall v | v in chain[1..] :: v in chain;
      PushAllTouches(Push(table, power, chain[0]), power, chain[1..], c);
    }
  }

  /** A bucket move under its own lock touches no bucket under another lock. */
  lemma MoveStaysUnderLock(t: Tables, locks: nat, c: nat)
    requires Valid(t) && t.expanding && locks <= t.power - 1 && c < |t.primary|
    requires Slot(c, locks) != Slot(t.bucket, locks)
    ensures Migrate(t).primary[c] == t.primary[c]
  {
    var chain := t.previous[t.bucket];
    forall v | v in chain ensures Slot(v, t.power) != c {
      SlotSmall(t.bucket, t.power - 1);
      SlotCoarser(v, t.bucket, locks, t.power - 1);
      SlotSmall(c, t.power);
      if Slot(v, t.power) == c { SlotCoarser(v, c, locks, t.power); }
    }
    PushAllTouches(t.primary, t.power, chain, c);
  }

  lemma OtherBucket(t: Tables, locks: nat, id: nat)
    requires Valid(t) && t.expanding && locks <= t.power - 1
    requires Slot(id, locks) != Slot(t.bucket, locks)
    ensures Slot(id, t.power - 1) != t.bucket
  {
    SlotSmall(t.bucket, t.power - 1);
    if Slot(id, t.power - 1) == t.bucket { SlotCoarser(id, t.bucket, locks, t.power - 1); }
  }

  lemma PrimaryUndisturbed(t: Tables, locks: nat, id: nat)
    requires Valid(t) && t.expanding && locks <= t.power - 1
    requires Slot(id, locks) != Slot(t.bucket, locks)
    ensures Migrate(t).primary[Slot(id, t.power)] == t.primary[Slot(id, t.power)]
  {
    SlotSmall(Slot(id, t.power), t.power);
    SlotCoarser(id, Slot(id, t.power), locks, t.power);
    MoveStaysUnderLock(t, locks, Slot(id, t.power));
  }

  lemma SameChain(t: Tables, id: nat)
    requires |t.primary| == Pow2(t.power) && t.expanding && t.power > 0
    requires |t.previous| == Pow2(t.power - 1) && t.bucket < |t.previous| && Slot(id, t.power - 1) != t.bucket
    requires Migrate(t).primary[Slot(id, t.power)] == t.primary[Slot(id, t.power)]
    ensures InOld(Migrate(t), id) == InOld(t, id) && Chain(Migrate(t), id) == Chain(t, id)
  {
  }

  /** A find under another lock looks at the same chain before and after the move. */
  lemma FindUndisturbed(t: Tables, locks: nat, id: nat)
    requires Valid(t) && t.expanding && locks <= t.power - 1
    requires Slot(id, locks) != Slot(t.bucket, locks)
    ensures Valid(Migrate(t)) && InOld(Migrate(t), id) == InOld(t, id) && Chain(Migrate(t), id) == Chain(t, id)
  {
    MigrateKeeps(t);
    OtherBucket(t, locks, id);
    PrimaryUndisturbed(t, locks, id);
    SameChain(t, id);
  }

  // ---- the structure changed in place

  ghost function Size(table: Table): (n: nat) {
    if table == [] then 0 else |table[0]| + Size(table[1..])
  }

  lemma {:induction false} SizePush(table: Table, b: nat, id: nat)
    requires b < |table|
    ensures Size(table[b := [id] + table[b]]) == Size(table) + 1
  {
    var r := table[b := [id] + table[b]];
    if b == 0 {
      assert r[1..] == table[1..];
    } else {
      SizePush(table[1..], b - 1, id);
      assert r[1..] == table[1..][b - 1 := [id] + table[1..][b - 1]];
    }
  }

  lemma {:induction false} SizeEmpty(table: Table)
    requires forall b | 0 <= b < |table| :: table[b] == []
    ensures Size(table) == 0
  {
    if table != [] { SizeEmpty(table[1..]); }
  }

  /** The loop that relinks the volumes of one old bucket. */
  method MoveChain(table: Table, power: nat, chain: seq<nat>) returns (r: Table)
    requires |table| == Pow2(power)
    ensures r == PushAll(table, power, chain) && Size(r) == Size(table) + |chain|
  {
    r := table;
    for i := 0 to |chain|
      invariant |r| == Pow2(power) && Size(r) == Size(table) + i
      invariant PushAll(r, power, chain[i..]) == PushAll(table, power, chain)
    {
      SizePush(r, Slot(chain[i], power), chain[i]);
      assert chain[i..][0] == chain[i] && chain[i..][1..] == chain[i + 1..];
      r := r[Slot(chain[i], power) := [chain[i]] + r[Slot(chain[i], power)]];
    }
  }

  class Cluster {
    var primary: Table
    var previous: Table
    var power: nat
    var bucket: nat
    var expanding: bool
    var count: nat
    var started: bool     // is_started_expanding
    ghost var late: nat   // inserts into the old table since the last expansion began

    ghost function Abs(): (t: Tables)
      reads this
    {
      Tables(primary, previous, power, bucket, expanding)
    }

    /** primary_volume_count counts the primary table, plus every late insert a second time; an
        expansion is asked for only when the table is more than half full. */
    ghost predicate Ok()
      reads this
    {
      && Valid(Abs()) && count == Size(primary) + late
      && (expanding ==> started) && (started && !expanding ==> count > Pow2(power) / 2)
    }

    /** __cluster_init */
    constructor (power: nat)
      ensures Ok() && !expanding && late == 0 && this.power == power && forall v: nat :: !Holds(Abs(), v)
    {
      primary, previous, this.power, bucket := Empty(Pow2(power)), [], power, 0;
      expanding, count, started, late := false, 0, false, 0;
      SizeEmpty(Empty(Pow2(power)));
    }

    /** __do_find */
    method Find(id: nat) returns (found: bool)
      requires Valid(Abs())
      ensures found <==> Holds(Abs(), id)
    {
      var chain := if expanding && Slot(id, power - 1) >= bucket then previous[Slot(id, power - 1)]
                   else primary[Slot(id, power)];
      for i := 0 to |chain|
        invariant id !in chain[..i]
      {
        if chain[i] == id { return true; }
      }
      return false;
    }

    /** The assignments of do_cluster_insert. */
    method Link(id: nat) returns (ok: bool)
      requires |primary| == Pow2(power) && (expanding ==> power > 0 && |previous| == Pow2(power - 1))
      modifies this
      ensures ok <==> InsertId(old(Abs()), id).Some?
      ensures if ok then InsertId(old(Abs()), id) == Some(Abs()) && count == old(count) + 1 else unchanged(this)
      ensures ok ==> Size(primary) + late == old(Size(primary) + late) + 1
      ensures ok ==> started == (old(started) || (!expanding && count > Pow2(power) / 2))
    {
      var b := Slot(id, power);
      if expanding && b >= bucket {
        if b >= |previous| { return false; }
        previous := previous[b := [id] + previous[b]];
        late := late + 1;
      } else {
        SizePush(primary, b, id);
        primary := primary[b := [id] + primary[b]];
      }
      count := count + 1;
      if !expanding && count > Pow2(power) / 2 { started := true; }
      return true;
    }

    /** do_cluster_insert; false is the write outside the old table. */
    method Insert(id: nat) returns (ok: bool)
      requires Ok() && !Holds(Abs(), id)
      modifies this
      ensures ok <==> !old(expanding) || Slot(id, old(power)) < Pow2(old(power) - 1)
      ensures ok ==> Ok() && InsertId(old(Abs()), id) == Some(Abs())
      ensures ok ==> forall v: nat :: Holds(Abs(), v) <==> old(Holds(Abs(), v)) || v == id
      ensures !ok ==> Abs() == old(Abs()) && count == old(count)
      ensures started == (old(started) || (ok && !expanding && count > Pow2(power) / 2))
    {
      InsertExact(Abs(), id);
      ok := Link(id);
    }

    /** __cluster_expand, in the thread that was woken because an expansion is asked for. */
    method ExpandTable()
      requires Ok() && !expanding && started
      modifies this
      ensures Ok() && Abs() == Expand(old(Abs())) && late == 0 && started
    {
      ExpandKeeps(Abs());
      SizeEmpty(Empty(Pow2(power + 1)));
      previous, primary := primary, Empty(Pow2(power + 1));
      power, bucket, expanding, count, late := power + 1, 0, true, 0, 0;
    }

    /** One round of the maintenance loop. */
    method MigrateBucket()
      requires Ok() && expanding
      modifies this
      ensures Ok() && Abs() == Migrate(old(Abs())) && late == old(late)
      ensures power == old(power) && (expanding ==> bucket == old(bucket) + 1) && started == expanding
    {
      ghost var moved := Migrate(Abs());
      assert Valid(moved) by { MigrateKeeps(Abs()); }
      var chain := previous[bucket];
      primary := MoveChain(primary, power, chain);
      count := count + |chain|;
      previous := previous[bucket := []];
      bucket := bucket + 1;
      if bucket == |previous| {
        expanding, previous, started := false, [], false;
      }
      assert Abs() == moved;
    }

    /** The maintenance loop while nothing else runs: it ends, and what find sees is unchanged. */
    method FinishExpansion()
      requires Ok()
      modifies this
      ensures Ok() && !expanding && late == old(late)
      ensures forall v: nat :: Holds(Abs(), v) <==> old(Holds(Abs(), v))
    {
      while expanding
        invariant Ok() && late == old(late)
        invariant forall v: nat :: Holds(Abs(), v) <==> old(Holds(Abs(), v))
        decreases if expanding then Pow2(power - 1) - bucket else 0
      {
        MigrateKeeps(Abs());
        MigrateBucket();
      }
    }
  }
}
