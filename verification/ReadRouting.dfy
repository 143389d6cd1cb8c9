/** The tracker's choice of a block to read from, and why a chosen slave is not stale. */
module ReadRouting {
  import opened Options
  import opened Replication

  // ---- the choice

  /** What the tracker keeps of a block for routing. */
  datatype BlockInfo = BlockInfo(heartbeat: int, lastSync: int)

  /** datasevr_volume */
  class Volume {
    var blocks: seq<Option<BlockInfo>>
    var master: int
    var lastRead: nat

    ghost predicate Valid()
      reads this
    {
      if blocks == [] then master == -1 else 0 <= master < |blocks|
    }

    /** volume_new */
    constructor ()
      ensures Valid() && blocks == []
    {
      blocks, master, lastRead := [], -1, 0;
    }

    /** __do_insert and do_block_insert: the first block becomes the master. */
    method Insert(b: BlockInfo)
      requires Valid()
      modifies this
      ensures Valid() && blocks == old(blocks) + [Some(b)] && lastRead == old(lastRead)
      ensures master == if old(blocks) == [] then 0 else old(master)
    {
      if |blocks| == 0 || master == -1 { master := 0; }
      blocks := blocks + [Some(b)];
    }

    ghost predicate Eligible(i: int, sequence: int, now: int, interval: int)
      reads this
    {
      && 0 <= i < |blocks| && i != master && i != lastRead && blocks[i].Some?
      && now - blocks[i].value.heartbeat <= interval && blocks[i].value.lastSync >= sequence
    }

    /** cluster_readdatasevrblock_get on a volume that has blocks. */
    method ReadBlock(sequence: int, now: int, interval: int) returns (r: nat)
      requires Valid() && blocks != []
      modifies this`lastRead
      ensures r < |blocks| && blocks == old(blocks)
      ensures r != master ==> old(Eligible(r, sequence, now, interval)) && lastRead == r
      ensures r != master ==> forall i | 0 <= i < r :: !old(Eligible(i, sequence, now, interval))
      ensures r == master ==> lastRead == old(lastRead) && forall i :: !Eligible(i, sequence, now, interval)
    {
      var i := 0;
      while i < |blocks|
        invariant 0 <= i <= |blocks| && lastRead == old(lastRead)
        invariant forall k | 0 <= k < i :: !Eligible(k, sequence, now, interval)
      {
        if i != master && i != lastRead
           && blocks[i].Some? && now - blocks[i].value.heartbeat <= interval && blocks[i].value.lastSync >= sequence
        {
          lastRead := i;
          return i;
        }
        i := i + 1;
      }
      r := master;
    }
  }

  // ---- why it is safe

  /** Every record that a slave with `base` and `synced` still has to get is newer than all before
      it and than what the full sync reported. */
  ghost predicate Newer(recs: seq<int>, base: nat, synced: int) {
    forall j | base <= j < |recs| :: synced < recs[j] && forall i | 0 <= i < j :: recs[i] < recs[j]
  }

  /** Sequence v is not newer than what the slave has got. */
  ghost predicate Covered(l: Log, r: Replica, v: int) {
    v <= r.synced || exists i | 0 <= i < |l.recs| && i < Water(r.base, r.applied) :: v <= l.recs[i]
  }

  ghost predicate Honest(l: Log, r: Replica) {
    Covered(l, r, r.lastSync) && Covered(l, r, r.reported)
  }

  /** Every record up to sequence t is on the slave. */
  ghost predicate UpTo(l: Log, r: Replica, t: int) {
    forall i: nat | i < |l.recs| && l.recs[i] <= t :: Has(r, i)
  }

  lemma HonestIsUpToDate(l: Log, r: Replica, t: int)
    requires Inv(l, r) && CleanInv(l, r) && Newer(l.recs, r.base, r.synced) && Honest(l, r) && t <= r.reported
    ensures UpTo(l, r, t)
  {
    InOrderHas(r.base, r.applied);
  }

  lemma HonestApply(l: Log, r: Replica, e: Event, reopen: bool)
    requires Inv(l, r) && CleanInv(l, r) && Honest(l, r) && Enabled(l, r, e) && e.Apply?
    ensures Honest(l, Next(l, r, e, reopen))
  {
    WaterGrows(r.base, r.applied, e.rec);
  }

  lemma HonestStep(l: Log, r: Replica, e: Event, reopen: bool)
    requires Inv(l, r) && CleanInv(l, r) && Honest(l, r) && Enabled(l, r, e)
    ensures Honest(l, Next(l, r, e, reopen))
  {
    if e.Apply? { HonestApply(l, r, e, reopen); }
  }

  lemma HonestLog(l: Log, l': Log, r: Replica)
    requires Honest(l, r) && Extends(l, l')
    ensures Honest(l', r)
  {
    assert forall i | 0 <= i < |l.recs| :: l.recs[i] == l'.recs[i];
  }

  lemma {:induction false} HonestRun(c: Cluster, steps: seq<Step>, j: nat, reopen: bool)
    requires InvAt(c, j) && CleanInv(c.l, c.rs[j]) && Honest(c.l, c.rs[j])
    requires Runs(c, steps, reopen) && CleanThroughout(c, steps, j, reopen)
    ensures var c' := Final(c, steps, reopen);
            Honest(c'.l, c'.rs[j])
    decreases |steps|
  {
    if steps != [] {
      var c' := StepNext(c, steps[0], reopen);
      StepExact(c, steps[0], j, reopen);
      match steps[0] {
        case OnLog(g) => HonestLog(c.l, c'.l, c.rs[j]);
        case OnReplica(k, e) => if k == j { HonestStep(c.l, c.rs[j], e, reopen); }
      }
      HonestRun(c', steps[1..], j, reopen);
    }
  }

  /** In every interleaving of log growth, replication and reports without a gap for slave j,
      whatever sequence the tracker's copy covers is on the slave. */
  lemma NeverStale(c: Cluster, steps: seq<Step>, j: nat, t: int, reopen: bool)
    requires Runs(c, steps, reopen) && Serves(c, steps, j, reopen)
    ensures var c' := Final(c, steps, reopen);
            c'.rs[j].reported >= t ==> UpTo(c'.l, c'.rs[j], t)
  {
    var c' := Final(c, steps, reopen);
    CleanRun(c, steps, j, reopen);
    HonestRun(c, steps, j, reopen);
    RunExtends(c, steps, j, reopen);
    if c'.rs[j].reported >= t { HonestIsUpToDate(c'.l, c'.rs[j], t); }
  }

  /** Slave j started clean and stayed clean, and the log that came about suits it. */
  ghost predicate Serves(c: Cluster, steps: seq<Step>, j: nat, reopen: bool)
    requires Runs(c, steps, reopen)
  {
    && InvAt(c, j) && CleanInv(c.l, c.rs[j]) && Honest(c.l, c.rs[j]) && CleanThroughout(c, steps, j, reopen)
    && Newer(Final(c, steps, reopen).l.recs, c.rs[j].base, c.rs[j].synced)
  }

  /** The routed read itself: a slave the tracker picks has applied everything up to the
      sequence asked for.  Block i of the volume is slave i of the cluster. */
  method RoutedRead(
    v: Volume, sequence: int, now: int, interval: int, ghost c: Cluster, ghost steps: seq<Step>,
    ghost reopen: bool)
    returns (r: nat)
    requires v.Valid() && v.blocks != [] && Runs(c, steps, reopen) && |c.rs| == |v.blocks|
    requires forall j | 0 <= j < |c.rs| && j != v.master :: Serves(c, steps, j, reopen)
    requires forall j | 0 <= j < |c.rs| && j != v.master && v.blocks[j].Some? ::
               v.blocks[j].value.lastSync == Final(c, steps, reopen).rs[j].reported
    modifies v
    ensures r < |c.rs| && (r == v.master || UpTo(Final(c, steps, reopen).l, Final(c, steps, reopen).rs[r], sequence))
  {
    r := v.ReadBlock(sequence, now, interval);
    if r != v.master {
      assert Serves(c, steps, r, reopen);
      NeverStale(c, steps, r, sequence, reopen);
    }
  }

  // ---- and exactly when

  /** A slave right after its full sync. */
  ghost function Newcomer(base: nat, synced: int): (r: Replica) {
    Replica(base, synced, None, None, {}, [], synced, synced)
  }

  /** A clean run that takes slave j from its full sync to the log `recs`. */
  ghost predicate Brings(c: Cluster, steps: seq<Step>, j: nat, reopen: bool, recs: seq<int>, base: nat, synced: int) {
    && InvAt(c, j) && c.rs[j] == Newcomer(base, synced)
    && Runs(c, steps, reopen) && CleanThroughout(c, steps, j, reopen) && Final(c, steps, reopen).l.recs == recs
  }

  /** No run of replication and reports ends with a tracker that would send a reader of some
      sequence t to the slave while the slave lacks a record up to t. */
  ghost predicate NeverStaleOn(recs: seq<int>, base: nat, synced: int) {
    forall c, steps, j: nat, reopen | Brings(c, steps, j, reopen, recs, base, synced) ::
      var c' := Final(c, steps, reopen);
      forall t | t <= c'.rs[j].reported :: UpTo(c'.l, c'.rs[j], t)
  }

  lemma NewerIsNeverStale(recs: seq<int>, base: nat, synced: int)
    requires Newer(recs, base, synced)
    ensures NeverStaleOn(recs, base, synced)
  {
    forall c, steps, j: nat, reopen | Brings(c, steps, j, reopen, recs, base, synced)
      ensures
        var c' := Final(c, steps, reopen);
        forall t | t <= c'.rs[j].reported :: UpTo(c'.l, c'.rs[j], t)
    {
      var c' := Final(c, steps, reopen);
      forall t | t <= c'.rs[j].reported ensures UpTo(c'.l, c'.rs[j], t) {
        NeverStale(c, steps, j, t, reopen);
      }
    }
  }

  /** A thread about to read record k of the one file, with all before it delivered. */
  ghost predicate Reached(l: Log, r: Replica, k: nat) {
    && Inv(l, r) && |l.starts| == 1 && k <= |l.recs| && r.session.Some? && r.inflight == {}
    && (var s := r.session.value; s.phase == Idle && s.index == s.fd == 0 && s.read == k)
    && (forall i | i in r.applied :: i < k)
    && forall i | 0 <= i < k :: l.recs[i] <= r.lastSync
  }

  ghost function Round(k: nat): (es: seq<Event>) {
    [Read, Ship, Apply(k), Ack, WriteMark]
  }

  lemma RoundApplies(l: Log, r: Replica, k: nat) returns (r1: Replica, r2: Replica, r3: Replica)
    requires Reached(l, r, k) && k < |l.recs|
    ensures Enabled(l, r, Read) && Next(l, r, Read, false) == r1
    ensures Enabled(l, r1, Ship) && Next(l, r1, Ship, false) == r2
    ensures Enabled(l, r2, Apply(k)) && Next(l, r2, Apply(k), false) == r3
    ensures r3 == r.(session := Some(r.session.value.(read := k + 1, phase := Held)), applied := r.applied + [k],
                     lastSync := if l.recs[k] > r.lastSync then l.recs[k] else r.lastSync)
    ensures Inv(l, r3)
  {
    r1 := Next(l, r, Read, false);
    InvNext(l, r, Read, false);
    r2 := Next(l, r1, Ship, false);
    InvNext(l, r1, Ship, false);
    r3 := Next(l, r2, Apply(k), false);
    InvNext(l, r2, Apply(k), false);
  }

  /** The master delivers record k. */
  lemma RoundReaches(l: Log, r: Replica, k: nat) returns (rs: seq<Replica>)
    requires Reached(l, r, k) && k < |l.recs|
    ensures |rs| == 6 && rs[0] == r && Reached(l, rs[5], k + 1) && rs[5].base == r.base
    ensures forall i | 0 <= i < 5 :: Enabled(l, rs[i], Round(k)[i]) && Next(l, rs[i], Round(k)[i], false) == rs[i + 1]
  {
    var r1, r2, r3 := RoundApplies(l, r, k);
    var r4 := Next(l, r3, Ack, false);
    InvNext(l, r3, Ack, false);
    var r5 := Next(l, r4, WriteMark, false);
    InvNext(l, r4, WriteMark, false);
    rs := [r, r1, r2, r3, r4, r5];
  }

  lemma RoundRuns(l: Log, r: Replica, k: nat) returns (steps: seq<Step>, r': Replica)
    requires Reached(l, r, k) && k < |l.recs|
    ensures Runs(Cluster(l, [r]), steps, false) && Final(Cluster(l, [r]), steps, false) == Cluster(l, [r'])
    ensures forall i | 0 <= i < |steps| :: Quiet(steps[i])
    ensures Reached(l, r', k + 1) && r'.base == r.base
  {
    var rs := RoundReaches(l, r, k);
    var cs := seq(6, i requires 0 <= i < 6 => Cluster(l, [rs[i]]));
    steps := seq(5, i requires 0 <= i < 5 => OnReplica(0, Round(k)[i]));
    forall i | 0 <= i < 5 ensures Leads(cs, steps, i, false) {
      OneSlave(l, rs[i], Round(k)[i], rs[i + 1], false);
    }
    RunsThrough(cs, steps, false);
    r' := rs[5];
  }

  lemma {:induction false} RoundsRun(l: Log, r: Replica, k: nat) returns (steps: seq<Step>, r': Replica)
    requires Reached(l, r, 0) && k <= |l.recs|
    ensures Runs(Cluster(l, [r]), steps, false) && Final(Cluster(l, [r]), steps, false) == Cluster(l, [r'])
    ensures forall i | 0 <= i < |steps| :: Quiet(steps[i])
    ensures Reached(l, r', k) && r'.base == r.base
  {
    if k == 0 { return [], r; }
    var before, r1 := RoundsRun(l, r, k - 1);
    var round, r2 := RoundRuns(l, r1, k - 1);
    steps, r' := before + round, r2;
    RunsConcat(Cluster(l, [r]), before, round, steps, false);
  }

  /** A sequence older than every record. */
  ghost function Older(recs: seq<int>): (q: int)
    ensures forall i | 0 <= i < |recs| :: q < recs[i]
  {
    if recs == [] then 0
    else
      var q := Older(recs[1..]);
      assert forall i | 0 < i < |recs| :: recs[i] == recs[1..][i - 1];
      if q < recs[0] then q else recs[0] - 1
  }

  /** From there the master delivers k records and the slave reports. */
  lemma DeliverAndReport(l: Log, r: Replica, k: nat) returns (steps: seq<Step>, r': Replica)
    requires Reached(l, r, 0) && k <= |l.recs|
    ensures Runs(Cluster(l, [r]), steps, false) && Final(Cluster(l, [r]), steps, false) == Cluster(l, [r'])
    ensures CleanThroughout(Cluster(l, [r]), steps, 0, false)
    ensures r'.base == r.base && (forall i | i in r'.applied :: i < k)
    ensures forall i | 0 <= i < k :: l.recs[i] <= r'.reported
  {
    var rounds, r1 := RoundsRun(l, r, k);
    var report := OnReplica(0, Report);
    r' := r1.(reported := r1.lastSync);
    OneSlave(l, r1, Report, r', false);
    RunsOne(Cluster(l, [r1]), report, [], false);
    steps := rounds + ([report] + []);
    RunsConcat(Cluster(l, [r]), rounds, [report] + [], steps, false);
    QuietIsClean(Cluster(l, [r]), steps, 0, false);
  }

  /** The first start of a slave that the tracker believes to have nothing. */
  lemma StartsAtZero(recs: seq<int>, base: nat, synced: int) returns (r: Replica)
    requires base < |recs|
    ensures
      var l, n, e := Log(recs, [0]), Newcomer(base, synced), Start(Older(recs));
      && Inv(l, n) && Enabled(l, n, e) && Clean(l, n, e) && Next(l, n, e, false) == r
      && Reached(l, r, 0) && r.base == base
  {
    var l, n, e := Log(recs, [0]), Newcomer(base, synced), Start(Older(recs));
    FreshIsClean(l, n);
    InvNext(l, n, e, false);
    r := Next(l, n, e, false);
  }

  lemma DropRun(recs: seq<int>, base: nat, synced: int, k: nat) returns (c: Cluster, steps: seq<Step>)
    requires base < |recs| && k <= |recs|
    ensures Brings(c, steps, 0, false, recs, base, synced)
    ensures
      var r := Final(c, steps, false).rs[0];
      r.base == base && (forall i | i in r.applied :: i < k) && forall i | 0 <= i < k :: recs[i] <= r.reported
  {
    var l, n := Log(recs, [0]), Newcomer(base, synced);
    var start := OnReplica(0, Start(Older(recs)));
    var r0 := StartsAtZero(recs, base, synced);
    OneSlave(l, n, start.e, r0, false);
    var rest, r1 := DeliverAndReport(l, r0, k);
    c, steps := Cluster(l, [n]), [start] + rest;
    RunsOne(c, start, rest, false);
    assert steps[1..] == rest;
  }

  /** If a record to come is not newer than one before it, deliver that one and report. */
  lemma DropIsStale(recs: seq<int>, base: nat, synced: int, i: nat, j: nat)
    requires base <= j < |recs| && i < j && recs[j] <= recs[i]
    ensures !NeverStaleOn(recs, base, synced)
  {
    var c, steps := DropRun(recs, base, synced, i + 1);
    var c' := Final(c, steps, false);
    assert recs[i] <= c'.rs[0].reported;
    assert !Has(c'.rs[0], j) && !UpTo(c'.l, c'.rs[0], recs[i]);
  }

  lemma OldIsStale(recs: seq<int>, base: nat, synced: int, j: nat)
    requires base <= j < |recs| && recs[j] <= synced
    ensures !NeverStaleOn(recs, base, synced)
  {
    var l, r := Log(recs, [0]), Newcomer(base, synced);
    FreshIsClean(l, r);
    assert Brings(Cluster(l, [r]), [], 0, false, recs, base, synced);
    assert !Has(r, j) && !UpTo(l, r, synced);
  }

  /** A slave is never routed to too early if and only if every record it gets after its full sync
      is newer than all earlier ones and than the sequence the full sync reported. */
  lemma StaleExact(recs: seq<int>, base: nat, synced: int)
    ensures NeverStaleOn(recs, base, synced) <==> Newer(recs, base, synced)
  {
    if Newer(recs, base, synced) {
      NewerIsNeverStale(recs, base, synced);
    } else {
      var j :| base <= j < |recs| && !(synced < recs[j] && forall i | 0 <= i < j :: recs[i] < recs[j]);
      if recs[j] <= synced {
        OldIsStale(recs, base, synced, j);
      } else {
        var i :| 0 <= i < j && recs[j] <= recs[i];
        DropIsStale(recs, base, synced, i, j);
      }
    }
  }

  /** The full sync brought exactly the records up to the sequence it reported. */
  ghost predicate Consistent(recs: seq<int>, base: nat, synced: int) {
    forall i | 0 <= i < |recs| :: recs[i] <= synced <==> i < base
  }

  /** No slave whose full sync was consistent is routed to too early, whenever it joined, if and
      only if the sequence numbers in the log rise strictly. */
  lemma RisingExact(recs: seq<int>)
    ensures (forall base: nat, synced | Consistent(recs, base, synced) :: NeverStaleOn(recs, base, synced))
            <==> (forall i, j | 0 <= i < j < |recs| :: recs[i] < recs[j])
  {
    if forall base: nat, synced | Consistent(recs, base, synced) :: NeverStaleOn(recs, base, synced) {
      assert Consistent(recs, 0, Older(recs));
      StaleExact(recs, 0, Older(recs));
    }
    if forall i, j | 0 <= i < j < |recs| :: recs[i] < recs[j] {
      forall base: nat, synced | Consistent(recs, base, synced) ensures NeverStaleOn(recs, base, synced) {
        StaleExact(recs, base, synced);
      }
    }
  }
}
