/** Stat reports and write requests on the tracker: the skip list as a scheduler. */
module WlcScheduler {
  import opened Rows
  import opened Towers
  import opened SkipLists
  import opened Options

  /** The fields of a registered block that the scheduler reads and writes. */
  datatype Block = Block(conns: int, weight: int, heartbeat: int, offLine: bool) {
    function Wlc(): int { conns * weight }
  }

  /** The scheduler as a value: the list and the registered blocks by id. */
  datatype State = State(towers: seq<Tower>, blocks: map<nat, Block>)

  // ---- cluster_wlc_block_add

  ghost function Add(ts: seq<Tower>, oldWlc: int, newWlc: int, id: nat, height: nat): (r: seq<Tower>)
    requires |ts| > 0 && Sorted(ts)
    ensures |r| > 0 && Sorted(r)
  {
    if oldWlc == newWlc then ts
    else
      var ts' := if Unmasked(ts, Key(oldWlc, id)) then WithoutKey(ts, Key(oldWlc, id)) else ts;
      InsertedSorted(ts', Tower(Key(newWlc, id), height));
      Inserted(ts', Rank(ts', Key(newWlc, id)), Tower(Key(newWlc, id), height))
  }

  ghost function WithoutKey(ts: seq<Tower>, k: Key): (r: seq<Tower>)
    requires |ts| > 0 && Sorted(ts) && Unmasked(ts, k)
    ensures |r| > 0 && Sorted(r)
  {
    RankHolds(ts, k);
    RemovedSorted(ts, Rank(ts, k));
    Removed(ts, Rank(ts, k))
  }

  lemma RankHolds(ts: seq<Tower>, k: Key)
    requires |ts| > 0 && Sorted(ts) && exists t :: Holds(ts, t, k)
    ensures Holds(ts, Rank(ts, k), k)
  {
    var t :| Holds(ts, t, k);
    assert Rank(ts, k) <= t && (Rank(ts, k) < t ==> InPlace(ts, Rank(ts, k), t));
  }

  // ---- what a good scheduler looks like

  /** No block has two nodes. */
  ghost predicate OneNodeEach(ts: seq<Tower>) {
    forall p, q | 1 <= p < q < |ts| :: ts[p].key.id != ts[q].key.id
  }

  /** Every node is filed under its block's current weight. */
  ghost predicate Current(s: State) {
    forall p | 1 <= p < |s.towers| ::
      s.towers[p].key.id in s.blocks && s.towers[p].key.wlc == s.blocks[s.towers[p].key.id].Wlc()
  }

  ghost predicate Good(s: State) {
    |s.towers| > 0 && Sorted(s.towers) && OneNodeEach(s.towers) && Current(s)
  }

  /** The key is in the list, but a taller tower of equal weight and larger id hides it. */
  ghost predicate Shadowed(ts: seq<Tower>, k: Key) {
    exists t, r :: Holds(ts, t, k) && Beyond(ts, r, k) && ts[t].height < ts[r].height
  }

  lemma ShadowedIsMasked(ts: seq<Tower>, k: Key)
    requires OneNodeEach(ts)
    ensures Shadowed(ts, k) <==> (exists t :: Holds(ts, t, k)) && !Unmasked(ts, k)
  {
    if t :| Holds(ts, t, k) {
      assert forall t' | Holds(ts, t', k) :: t' == t;
    }
  }

  // ---- handle_cmd_statreport

  ghost function Stat(s: State, id: nat, conns: int, now: int, height: nat): (s': State)
    requires |s.towers| > 0 && Sorted(s.towers)
    ensures |s'.towers| > 0 && Sorted(s'.towers)
  {
    if id !in s.blocks then s
    else
      var b := s.blocks[id];
      var b' := b.(conns := conns, heartbeat := now, offLine := false);
      State(Add(s.towers, b.Wlc(), b'.Wlc(), id, height), s.blocks[id := b'])
  }

  /** The only way a stat report spoils a good scheduler: the weight changes while the
      block's node is shadowed. */
  ghost predicate Spoils(s: State, id: nat, conns: int) {
    && id in s.blocks && s.blocks[id].Wlc() != s.blocks[id].(conns := conns).Wlc()
    && Shadowed(s.towers, Key(s.blocks[id].Wlc(), id))
  }

  lemma InsertedGood(ts: seq<Tower>, t: Tower, blocks: map<nat, Block>)
    requires |ts| > 0 && Sorted(ts) && OneNodeEach(ts)
    requires forall p | 1 <= p < |ts| :: ts[p].key.id != t.key.id
    requires Current(State(ts, blocks)) && t.key.id in blocks && t.key.wlc == blocks[t.key.id].Wlc()
    ensures Good(State(Inserted(ts, Rank(ts, t.key), t), blocks))
  {
    InsertedSorted(ts, t);
    var k := Rank(ts, t.key);
    var r := Inserted(ts, k, t);
    forall p, q | 1 <= p < q < |r| ensures r[p].key.id != r[q].key.id {
      assert r[p] == if p < k then ts[p] else if p == k then t else ts[p - 1];
      assert r[q] == if q < k then ts[q] else if q == k then t else ts[q - 1];
    }
  }

  lemma RemovedUnique(ts: seq<Tower>, k: nat)
    requires 1 <= k < |ts| && OneNodeEach(ts)
    ensures OneNodeEach(Removed(ts, k))
    ensures forall p | 1 <= p < |ts| - 1 :: Removed(ts, k)[p].key.id != ts[k].key.id
  {
  }

  lemma StatKeeps(s: State, id: nat, conns: int, now: int, height: nat)
    requires Good(s) && !Spoils(s, id, conns)
    ensures Good(Stat(s, id, conns, now, height))
  {
    if id in s.blocks && s.blocks[id].Wlc() != s.blocks[id].(conns := conns).Wlc() {
      var k := Key(s.blocks[id].Wlc(), id);
      var s' := Stat(s, id, conns, now, height);
      ShadowedIsMasked(s.towers, k);
      if Unmasked(s.towers, k) {
        RankHolds(s.towers, k);
        RemovedUnique(s.towers, Rank(s.towers, k));
        InsertedGood(WithoutKey(s.towers, k), Tower(Key(s'.blocks[id].Wlc(), id), height), s'.blocks);
      } else {
        assert forall p | 1 <= p < |s.towers| :: Holds(s.towers, p, s.towers[p].key);
        InsertedGood(s.towers, Tower(Key(s'.blocks[id].Wlc(), id), height), s'.blocks);
      }
    }
  }

  lemma StatSpoils(s: State, id: nat, conns: int, now: int, height: nat)
    requires Good(s) && Spoils(s, id, conns)
    ensures !OneNodeEach(Stat(s, id, conns, now, height).towers)
  {
    var k := Key(s.blocks[id].Wlc(), id);
    ShadowedIsMasked(s.towers, k);
    var t :| Holds(s.towers, t, k);
    var s' := Stat(s, id, conns, now, height);
    var n := Rank(s.towers, Key(s'.blocks[id].Wlc(), id));
    var m := if t < n then t else t + 1;
    assert s'.towers[m] == s.towers[t] && s'.towers[n].key.id == id;
    assert 1 <= m < |s'.towers| && 1 <= n < |s'.towers|;
  }

  /** A stat report keeps one current node per block exactly when it does not spoil. */
  lemma StatExact(s: State, id: nat, conns: int, now: int, height: nat)
    requires Good(s)
    ensures Good(Stat(s, id, conns, now, height)) <==> !Spoils(s, id, conns)
  {
    if Spoils(s, id, conns) {
      StatSpoils(s, id, conns, now, height);
    } else {
      StatKeeps(s, id, conns, now, height);
    }
  }

  lemma NodesInserted(ts: seq<Tower>, k: nat, t: Tower)
    requires 1 <= k <= |ts|
    ensures Nodes(Inserted(ts, k, t)) == Nodes(ts) + {t}
  {
    var r := Inserted(ts, k, t);
    assert r[k] == t;
    forall p | 1 <= p < |ts| ensures ts[p] in Nodes(r) { assert r[if p < k then p else p + 1] == ts[p]; }
    forall p | 1 <= p < |r| && p != k ensures r[p] in Nodes(ts) { assert r[p] == ts[if p < k then p else p - 1]; }
  }

  lemma NodesRemoved(ts: seq<Tower>, k: nat)
    requires 1 <= k < |ts| && OneNodeEach(ts)
    ensures Nodes(Removed(ts, k)) == Nodes(ts) - {ts[k]}
  {
    var r := Removed(ts, k);
    forall p | 1 <= p < |ts| && p != k ensures ts[p] in Nodes(r) { assert r[if p < k then p else p - 1] == ts[p]; }
    forall p | 1 <= p < |r| ensures r[p] in Nodes(ts) - {ts[k]} {
      var q := if p < k then p else p + 1;
      assert r[p] == ts[q] && ts[q].key.id != ts[k].key.id;
    }
  }

  /** What a report that changes the weight leaves: the nodes of the other blocks as they were, and one of
      the block under its new weight, as high as the level that was drawn. */
  lemma StatNodes(s: State, id: nat, conns: int, now: int, height: nat)
    requires Good(s) && !Spoils(s, id, conns) && id in s.blocks
    requires s.blocks[id].Wlc() != s.blocks[id].(conns := conns).Wlc()
    ensures Nodes(Stat(s, id, conns, now, height).towers)
         == (set t | t in Nodes(s.towers) && t.key.id != id)
            + {Tower(Key(s.blocks[id].(conns := conns).Wlc(), id), height)}
  {
    var ts, k, t := s.towers, Key(s.blocks[id].Wlc(), id), Tower(Key(s.blocks[id].(conns := conns).Wlc(), id), height);
    ShadowedIsMasked(ts, k);
    var ts' := if Unmasked(ts, k) then WithoutKey(ts, k) else ts;
    OthersStay(s, id, k, ts');
    NodesInserted(ts', Rank(ts', t.key), t);
  }

  lemma OthersStay(s: State, id: nat, k: Key, ts': seq<Tower>)
    requires Good(s) && id in s.blocks && k == Key(s.blocks[id].Wlc(), id) && !Shadowed(s.towers, k)
    requires Unmasked(s.towers, k) <==> exists t :: Holds(s.towers, t, k)
    requires ts' == if Unmasked(s.towers, k) then WithoutKey(s.towers, k) else s.towers
    ensures Nodes(ts') == set t | t in Nodes(s.towers) && t.key.id != id
  {
    var ts := s.towers;
    if Unmasked(ts, k) {
      RankHolds(ts, k);
      NodesRemoved(ts, Rank(ts, k));
      forall p | 1 <= p < |ts| && p != Rank(ts, k) ensures ts[p].key.id != id { }
    } else {
      forall p | 1 <= p < |ts| ensures ts[p].key.id != id { assert !Holds(ts, p, k); }
    }
  }

  // ---- cluster_wlc_write_block_get

  /** Whether a block is stale at the k-th look at the clock, which comes with the k-th node. */
  type Verdict = (nat, nat) -> bool

  /** The first position from p on whose block is not stale when the walk, at look k at p, gets there. */
  ghost function FirstFresh(ts: seq<Tower>, p: nat, k: nat, stale: Verdict): (f: nat)
    requires p <= |ts|
    ensures p <= f <= |ts|
    ensures f < |ts| ==> !stale(ts[f].key.id, k + f - p)
    ensures forall q | p <= q < f :: stale(ts[q].key.id, k + q - p)
    decreases |ts| - p
  {
    if p == |ts| || !stale(ts[p].key.id, k) then p else FirstFresh(ts, p + 1, k + 1, stale)
  }

  /** The loop from position p on: a stale node is handed to delete, which may miss it. */
  ghost function Sweep(ts: seq<Tower>, p: nat, k: nat, stale: Verdict): (r: seq<Tower>)
    requires 1 <= p <= |ts| && Sorted(ts)
    ensures |r| > 0 && Sorted(r)
    decreases |ts| - p
  {
    if p == |ts| || !stale(ts[p].key.id, k) then ts
    else if Unmasked(ts, ts[p].key) then Sweep(WithoutKey(ts, ts[p].key), p, k + 1, stale)
    else Sweep(ts, p + 1, k + 1, stale)
  }

  ghost function Nodes(ts: seq<Tower>): (ns: set<Tower>) {
    set p | 1 <= p < |ts| :: ts[p]
  }

  /** The nodes a sweep from p leaves: those before p, those from the first fresh one on, and
      the stale ones in between that the list's own search cannot reach. */
  ghost function Left(ts: seq<Tower>, p: nat, k: nat, stale: Verdict): (ns: set<Tower>)
    requires p <= |ts|
  {
    set q | 1 <= q < |ts| && (q < p || FirstFresh(ts, p, k, stale) <= q || Shadowed(ts, ts[q].key)) :: ts[q]
  }

  lemma RankSelf(ts: seq<Tower>, p: nat)
    requires 1 <= p < |ts| && Sorted(ts) && OneNodeEach(ts)
    ensures Rank(ts, ts[p].key) == p
  {
    assert Holds(ts, p, ts[p].key);
    RankHolds(ts, ts[p].key);
  }

  lemma FirstFreshUnique(ts: seq<Tower>, p: nat, k: nat, stale: Verdict, f: nat)
    requires p <= f <= |ts|
    requires f < |ts| ==> !stale(ts[f].key.id, k + f - p)
    requires forall q | p <= q < f :: stale(ts[q].key.id, k + q - p)
    ensures FirstFresh(ts, p, k, stale) == f
  {
    var g := FirstFresh(ts, p, k, stale);
  }

  /** Taking out a node leaves the shadows behind it as they were. */
  lemma ShadowedRemoved(ts: seq<Tower>, p: nat, q: nat)
    requires 1 <= p < q < |ts| && Sorted(ts) && OneNodeEach(ts)
    ensures Shadowed(Removed(ts, p), ts[q].key) <==> Shadowed(ts, ts[q].key)
  {
    var r, k := Removed(ts, p), ts[q].key;
    if t, u :| Holds(ts, t, k) && Beyond(ts, u, k) && ts[t].height < ts[u].height {
      assert t == q && (u < q ==> InPlace(ts, u, q));
      assert r[t - 1] == ts[t] && r[u - 1] == ts[u];
      assert Holds(r, t - 1, k) && Beyond(r, u - 1, k);
    }
    if t, u :| Holds(r, t, k) && Beyond(r, u, k) && r[t].height < r[u].height {
      var t', u' := if t < p then t else t + 1, if u < p then u else u + 1;
      assert r[t] == ts[t'] && r[u] == ts[u'];
      assert Holds(ts, t', k) && Beyond(ts, u', k);
    }
  }

  /** One deletion of the sweep removes its node from the sweep's remainder and no other. */
  lemma LeftRemoved(ts: seq<Tower>, p: nat, k: nat, stale: Verdict)
    requires 1 <= p < |ts| && Sorted(ts) && OneNodeEach(ts)
    requires stale(ts[p].key.id, k) && !Shadowed(ts, ts[p].key)
    ensures Left(Removed(ts, p), p, k + 1, stale) == Left(ts, p, k, stale)
  {
    var r, f := Removed(ts, p), FirstFresh(ts, p, k, stale);
    FirstFreshUnique(r, p, k + 1, stale, f - 1);
    forall q | 1 <= q < |ts| && q != p
      ensures ts[q] in Left(ts, p, k, stale) <==> ts[q] in Left(r, p, k + 1, stale)
    {
      var q' := if q < p then q else q - 1;
      assert r[q'] == ts[q];
      if p < q { ShadowedRemoved(ts, p, q); }
    }
  }

  lemma SweepCuts(ts: seq<Tower>, p: nat, k: nat, stale: Verdict)
    requires 1 <= p < |ts| && Sorted(ts) && OneNodeEach(ts) && stale(ts[p].key.id, k) && Unmasked(ts, ts[p].key)
    ensures
      var r := WithoutKey(ts, ts[p].key);
      && |r| == |ts| - 1 && OneNodeEach(r)
      && Left(r, p, k + 1, stale) == Left(ts, p, k, stale) && Sweep(ts, p, k, stale) == Sweep(r, p, k + 1, stale)
  {
    assert Holds(ts, p, ts[p].key);
    ShadowedIsMasked(ts, ts[p].key);
    RankSelf(ts, p);
    RemovedUnique(ts, p);
    LeftRemoved(ts, p, k, stale);
  }

  lemma SweepSkips(ts: seq<Tower>, p: nat, k: nat, stale: Verdict)
    requires 1 <= p < |ts| && Sorted(ts) && OneNodeEach(ts) && stale(ts[p].key.id, k) && !Unmasked(ts, ts[p].key)
    ensures Left(ts, p + 1, k + 1, stale) == Left(ts, p, k, stale)
  {
    assert Holds(ts, p, ts[p].key);
    ShadowedIsMasked(ts, ts[p].key);
  }

  lemma SweepStops(ts: seq<Tower>, p: nat, k: nat, stale: Verdict)
    requires 1 <= p <= |ts| && (p == |ts| || !stale(ts[p].key.id, k))
    ensures Left(ts, p, k, stale) == Nodes(ts)
  {
  }

  lemma {:induction false} SweepLeaves(ts: seq<Tower>, p: nat, k: nat, stale: Verdict)
    requires 1 <= p <= |ts| && Sorted(ts) && OneNodeEach(ts)
    ensures Nodes(Sweep(ts, p, k, stale)) == Left(ts, p, k, stale) && OneNodeEach(Sweep(ts, p, k, stale))
    decreases |ts| - p
  {
    if p == |ts| || !stale(ts[p].key.id, k) {
      SweepStops(ts, p, k, stale);
    } else if Unmasked(ts, ts[p].key) {
      SweepCuts(ts, p, k, stale);
      SweepLeaves(WithoutKey(ts, ts[p].key), p, k + 1, stale);
    } else {
      SweepSkips(ts, p, k, stale);
      SweepLeaves(ts, p + 1, k + 1, stale);
    }
  }

  /** What a write request does to a good list: the result is sorted, so its nodes determine it. */
  lemma SweepExact(s: State, stale: Verdict)
    requires Good(s)
    ensures var ts, r := s.towers, Sweep(s.towers, 1, 1, stale);
            && Sorted(r) && OneNodeEach(r)
            && Nodes(r) == set q | 1 <= q < |ts|
                                   && (FirstFresh(ts, 1, 1, stale) <= q || Shadowed(ts, ts[q].key)) :: ts[q]
  {
    SweepLeaves(s.towers, 1, 1, stale);
    assert Left(s.towers, 1, 1, stale)
        == set q | 1 <= q < |s.towers|
                   && (FirstFresh(s.towers, 1, 1, stale) <= q || Shadowed(s.towers, s.towers[q].key)) :: s.towers[q];
  }

  ghost function Stale(blocks: map<nat, Block>, clock: nat -> int, interval: int): (stale: Verdict) {
    (id: nat, k: nat) => id in blocks && clock(k) - blocks[id].heartbeat > interval
  }

  ghost function MarkOff(blocks: map<nat, Block>, ids: set<nat>): (r: map<nat, Block>) {
    map id | id in blocks :: if id in ids then blocks[id].(offLine := true) else blocks[id]
  }

  /** The blocks a sweep meets before it stops. */
  ghost function Met(ts: seq<Tower>, p: nat, f: nat): (ids: set<nat>)
    requires f <= |ts|
  {
    set q | p <= q < f :: ts[q].key.id
  }

  ghost function Write(s: State, clock: nat -> int, interval: int): (s': State)
    requires |s.towers| > 0 && Sorted(s.towers)
    ensures |s'.towers| > 0 && Sorted(s'.towers)
  {
    var stale := Stale(s.blocks, clock, interval);
    State(Sweep(s.towers, 1, 1, stale), MarkOff(s.blocks, Met(s.towers, 1, FirstFresh(s.towers, 1, 1, stale))))
  }

  lemma WriteKeeps(s: State, clock: nat -> int, interval: int)
    requires Good(s)
    ensures Good(Write(s, clock, interval))
  {
    var stale, s' := Stale(s.blocks, clock, interval), Write(s, clock, interval);
    SweepExact(s, stale);
    forall p | 1 <= p < |s'.towers|
      ensures s'.towers[p].key.id in s'.blocks && s'.towers[p].key.wlc == s'.blocks[s'.towers[p].key.id].Wlc()
    {
      assert s'.towers[p] in Nodes(s'.towers);
      var q :| 1 <= q < |s.towers| && s.towers[q] == s'.towers[p];
    }
  }

  /** The walk of a write request gets to position q and finds it stale: it and all before it have been
      silent for more than the interval when the clock is looked at for them. */
  ghost predicate SilentUpTo(s: State, clock: nat -> int, interval: int, q: nat)
    requires q < |s.towers|
  {
    forall p | 1 <= p <= q :: Silent(s, clock, interval, p)
  }

  ghost predicate Silent(s: State, clock: nat -> int, interval: int, p: nat)
    requires p < |s.towers|
  {
    s.towers[p].key.id in s.blocks && clock(p) - s.blocks[s.towers[p].key.id].heartbeat > interval
  }

  ghost predicate Swept(s: State, clock: nat -> int, interval: int, id: nat) {
    exists q | 1 <= q < |s.towers| :: s.towers[q].key.id == id && SilentUpTo(s, clock, interval, q)
  }

  lemma MetIsSilent(s: State, clock: nat -> int, interval: int, q: nat)
    requires Good(s) && 1 <= q < |s.towers|
    ensures q < FirstFresh(s.towers, 1, 1, Stale(s.blocks, clock, interval)) <==> SilentUpTo(s, clock, interval, q)
  {
    var f := FirstFresh(s.towers, 1, 1, Stale(s.blocks, clock, interval));
    if q < f {
      forall p | 1 <= p <= q ensures Silent(s, clock, interval, p) { }
    } else {
      assert !Silent(s, clock, interval, f);
    }
  }

  /** What a write request does to the records: a block goes off line if and only if it is silent and so
      are all that stand before it, and nothing else changes. */
  lemma WriteMarks(s: State, clock: nat -> int, interval: int, id: nat)
    requires Good(s) && id in s.blocks
    ensures var r := Write(s, clock, interval).blocks;
            && r.Keys == s.blocks.Keys
            && r[id] == s.blocks[id].(offLine := s.blocks[id].offLine || Swept(s, clock, interval, id))
  {
    var ts, f := s.towers, FirstFresh(s.towers, 1, 1, Stale(s.blocks, clock, interval));
    if q :| 1 <= q < f && ts[q].key.id == id { MetIsSilent(s, clock, interval, q); }
    if q :| 1 <= q < |ts| && ts[q].key.id == id && SilentUpTo(s, clock, interval, q) {
      MetIsSilent(s, clock, interval, q);
      assert id in Met(ts, 1, f);
    }
  }

  // ---- whole runs

  /** handle_cmd_register, handle_cmd_heartbeat and handle_cmd_syncreport, handle_cmd_statreport and
      handle_cmd_writetracker. */
  datatype Event =
    | Register(id: nat, weight: int)
    | Heartbeat(id: nat, now: int)
    | StatReport(id: nat, conns: int, now: int, height: nat)
    | WriteRequest(clock: nat -> int)

  /** A block that comes back keeps its connections, its heartbeat and its node. */
  function Registering(blocks: map<nat, Block>, id: nat, weight: int): (r: map<nat, Block>) {
    var b := if id in blocks then blocks[id] else Block(0, weight, 0, false);
    blocks[id := b.(weight := weight, offLine := false)]
  }

  function Beating(blocks: map<nat, Block>, id: nat, now: int): (r: map<nat, Block>) {
    if id in blocks then blocks[id := blocks[id].(heartbeat := now, offLine := false)] else blocks
  }

  /** A listed block comes back with another weight: its node stays filed under the old one. */
  ghost predicate Reweighs(s: State, id: nat, weight: int) {
    id in s.blocks && Listed(s.towers, id) && s.blocks[id].Wlc() != s.blocks[id].(weight := weight).Wlc()
  }

  ghost predicate Listed(ts: seq<Tower>, id: nat) {
    exists p | 1 <= p < |ts| :: ts[p].key.id == id
  }

  lemma RegisterExact(s: State, id: nat, weight: int)
    requires Good(s)
    ensures Good(s.(blocks := Registering(s.blocks, id, weight))) <==> !Reweighs(s, id, weight)
  {
    var s' := s.(blocks := Registering(s.blocks, id, weight));
    if Reweighs(s, id, weight) {
      var p :| 1 <= p < |s.towers| && s.towers[p].key.id == id;
      assert s.towers[p].key.wlc != s'.blocks[id].Wlc();
    } else {
      forall p | 1 <= p < |s.towers|
        ensures s.towers[p].key.id in s'.blocks && s.towers[p].key.wlc == s'.blocks[s.towers[p].key.id].Wlc()
      {
        assert Listed(s.towers, s.towers[p].key.id);
      }
    }
  }

  /** The two ways in which an event spoils a good scheduler. */
  ghost predicate SpoilsBy(s: State, e: Event) {
    match e
    case Register(id, weight) => Reweighs(s, id, weight)
    case StatReport(id, conns, _, _) => Spoils(s, id, conns)
    case _ => false
  }

  lemma ApplyExact(s: State, e: Event, interval: int)
    requires Good(s)
    ensures Good(Apply(s, e, interval)) <==> !SpoilsBy(s, e)
  {
    match e {
      case Register(id, weight) => RegisterExact(s, id, weight);
      case Heartbeat(id, now) =>
      case StatReport(id, conns, now, height) => StatExact(s, id, conns, now, height);
      case WriteRequest(clock) => WriteKeeps(s, clock, interval);
    }
  }

  ghost function Apply(s: State, e: Event, interval: int): (s': State)
    requires |s.towers| > 0 && Sorted(s.towers)
    ensures |s'.towers| > 0 && Sorted(s'.towers)
  {
    match e
    case Register(id, weight) => s.(blocks := Registering(s.blocks, id, weight))
    case Heartbeat(id, now) => s.(blocks := Beating(s.blocks, id, now))
    case StatReport(id, conns, now, height) => Stat(s, id, conns, now, height)
    case WriteRequest(clock) => Write(s, clock, interval)
  }

  ghost predicate GoodThroughout(s: State, es: seq<Event>, interval: int)
    decreases |es|
  {
    Good(s) && (es != [] ==> GoodThroughout(Apply(s, es[0], interval), es[1..], interval))
  }

  ghost predicate NeverSpoils(s: State, es: seq<Event>, interval: int)
    requires |s.towers| > 0 && Sorted(s.towers)
    decreases |es|
  {
    es != [] ==>
      && !SpoilsBy(s, es[0])
      && NeverSpoils(Apply(s, es[0], interval), es[1..], interval)
  }

  /** Over every run, one current node per block in every state if and only if no report in
      the run finds its block shadowed and no listed block comes back with another weight. */
  lemma {:induction false} RunExact(s: State, es: seq<Event>, interval: int)
    requires Good(s)
    ensures GoodThroughout(s, es, interval) <==> NeverSpoils(s, es, interval)
    decreases |es|
  {
    if es != [] {
      ApplyExact(s, es[0], interval);
      if !SpoilsBy(s, es[0]) { RunExact(Apply(s, es[0], interval), es[1..], interval); }
    }
  }

  ghost predicate DistinctThroughout(s: State, es: seq<Event>, interval: int)
    requires |s.towers| > 0 && Sorted(s.towers)
    decreases |es|
  {
    && (forall p, q | 1 <= p < q < |s.towers| :: s.towers[p].key.wlc != s.towers[q].key.wlc)
    && (es != [] && es[0].Register? ==> !Reweighs(s, es[0].id, es[0].weight))
    && (es != [] ==> DistinctThroughout(Apply(s, es[0], interval), es[1..], interval))
  }

  /** Distinct weights cast no shadows, so a run stays good whose listed blocks have distinct weighted
      connections and keep their weight. */
  lemma {:induction false} DistinctRun(s: State, es: seq<Event>, interval: int)
    requires Good(s) && DistinctThroughout(s, es, interval)
    ensures GoodThroughout(s, es, interval)
    decreases |es|
  {
    if es != [] {
      assert forall k :: !Shadowed(s.towers, k);
      ApplyExact(s, es[0], interval);
      DistinctRun(Apply(s, es[0], interval), es[1..], interval);
    }
  }

  /** Two blocks of weight 5: the search for the first walks over it on level 1. */
  lemma TieHidesBlock()
    ensures var ts := [Tower(Key(0, 0), MAX_LEVEL), Tower(Key(5, 1), 1), Tower(Key(5, 2), 2)];
            var s := State(ts, map[1 := Block(5, 1, 0, false), 2 := Block(5, 1, 0, false)]);
            && Good(s) && Holds(ts, 1, Key(5, 1)) && !Unmasked(ts, Key(5, 1))
            && Spoils(s, 1, 6) && !OneNodeEach(Stat(s, 1, 6, 0, 1).towers)
  {
    var ts := [Tower(Key(0, 0), MAX_LEVEL), Tower(Key(5, 1), 1), Tower(Key(5, 2), 2)];
    var s := State(ts, map[1 := Block(5, 1, 0, false), 2 := Block(5, 1, 0, false)]);
    assert Holds(ts, 1, Key(5, 1)) && Beyond(ts, 2, Key(5, 1));
    ShadowedIsMasked(ts, Key(5, 1));
    StatSpoils(s, 1, 6, 0, 1);
  }

  /** A block of weight 1 with five connections comes back with weight 2 and reports six: the report looks
      for its node under 10 where it is filed under 5, and a second node is made. */
  lemma ReturnLeavesNode(now: int)
    ensures var ts := [Tower(Key(0, 0), MAX_LEVEL), Tower(Key(5, 1), 1)];
            var s := State(ts, map[1 := Block(5, 1, 0, false)]);
            var s' := Apply(s, Register(1, 2), 0);
            && Good(s) && SpoilsBy(s, Register(1, 2)) && !Good(s')
            && !OneNodeEach(Apply(s', StatReport(1, 6, now, 1), 0).towers)
  {
    var ts := [Tower(Key(0, 0), MAX_LEVEL), Tower(Key(5, 1), 1)];
    var s := State(ts, map[1 := Block(5, 1, 0, false)]);
    assert ts[1].key.id == 1 && Listed(ts, 1);
    RegisterExact(s, 1, 2);
    var s' := Apply(s, Register(1, 2), 0);
    assert s'.blocks[1] == Block(5, 2, 0, false);
    assert forall t :: !Holds(ts, t, Key(10, 1));
    var r, k := Apply(s', StatReport(1, 6, now, 1), 0).towers, Rank(ts, Key(12, 1));
    assert r == Inserted(ts, k, Tower(Key(12, 1), 1));
    var m := if 1 < k then 1 else 2;
    assert r[k].key.id == 1 && r[m] == ts[1] && 1 <= k <= 2;
  }

  /** The first half of cluster_wlc_block_add: the block's old node, if the list finds it, is deleted. */
  method Forget(list: SkipList, wlc: int, id: nat)
    requires list.Valid()
    modifies list
    ensures list.Valid() && list.mem.Keys == old(list.mem.Keys)
    ensures
      var ts := old(list.towers);
      list.towers == if Unmasked(ts, Key(wlc, id)) then WithoutKey(ts, Key(wlc, id)) else ts
  {
    var node := list.Find(wlc, id);
    if node == NULL { return; }
    var found := list.Delete(list.mem[node].key.wlc, list.mem[node].key.id);
  }

  lemma AddRegistered(ts: seq<Tower>, oldWlc: int, newWlc: int, id: nat, height: nat, ids: set<nat>)
    requires |ts| > 0 && Sorted(ts) && Registered(ts, ids) && id in ids
    ensures Registered(Add(ts, oldWlc, newWlc, id, height), ids)
  {
  }

  /** The tracker's list and block records, changed in place by its handlers. */
  class Tracker {
    const list: SkipList
    const interval: int
    var blocks: map<nat, Block>

    constructor (interval: int, blocks: map<nat, Block>)
      ensures Valid() && fresh(list) && this.interval == interval && this.blocks == blocks && |list.towers| == 1
    {
      list := new SkipList();
      this.interval, this.blocks := interval, blocks;
    }

    ghost function Abs(): (s: State)
      reads this, list
    {
      State(list.towers, blocks)
    }

    ghost predicate Valid()
      reads this, list
    {
      list.Valid() && Registered(list.towers, blocks.Keys)
    }

    /** cluster_wlc_block_add; x and height are what malloc and the level generator return. */
    method BlockAdd(id: nat, oldWlc: int, newWlc: int, x: nat, height: nat)
      requires Valid() && id in blocks && x != NULL && x !in list.mem && 1 <= height <= MAX_LEVEL
      modifies list
      ensures Valid() && list.towers == Add(old(list.towers), oldWlc, newWlc, id, height)
    {
      AddRegistered(list.towers, oldWlc, newWlc, id, height, blocks.Keys);
      if oldWlc == newWlc { return; }
      Forget(list, oldWlc, id);
      list.Insert(x, newWlc, id, height);
    }

    /** handle_cmd_register */
    method Enter(id: nat, weight: int)
      requires Valid()
      modifies this`blocks
      ensures Valid() && Abs() == Apply(old(Abs()), Register(id, weight), interval)
    {
      blocks := Registering(blocks, id, weight);
    }

    /** handle_cmd_heartbeat, and what handle_cmd_syncreport does here; false for an unknown block. */
    method Beat(id: nat, now: int) returns (ok: bool)
      requires Valid()
      modifies this`blocks
      ensures Valid() && ok == (id in old(blocks)) && Abs() == Apply(old(Abs()), Heartbeat(id, now), interval)
    {
      ok := id in blocks;
      blocks := Beating(blocks, id, now);
    }

    /** handle_cmd_statreport; false stands for the "no such block" response. */
    method Report(id: nat, conns: int, now: int, x: nat, height: nat) returns (ok: bool)
      requires Valid() && x != NULL && x !in list.mem && 1 <= height <= MAX_LEVEL
      modifies this, list
      ensures Valid() && ok == (id in old(blocks))
      ensures Abs() == Apply(old(Abs()), StatReport(id, conns, now, height), interval)
    {
      ok := id in blocks;
      if !ok { return; }
      var b := blocks[id];
      blocks := blocks[id := b.(conns := conns, heartbeat := now, offLine := false)];
      BlockAdd(id, b.Wlc(), blocks[id].Wlc(), x, height);
    }

    /** handle_cmd_writetracker's choice of a block. */
    method WriteBlock(clock: nat -> int) returns (chosen: Option<nat>)
      requires Valid()
      modifies this, list
      ensures Valid() && Abs() == Apply(old(Abs()), WriteRequest(clock), interval)
      ensures chosen == Choice(old(Abs()), clock, interval)
    {
      ghost var s := Abs();
      blocks, chosen := WriteBlockGet(list, blocks, clock, interval);
      assert Abs() == Write(s, clock, interval);
    }
  }

  // ---- the choice

  /** The first block in list order that is fresh when the walk gets to it. */
  ghost function Choice(s: State, clock: nat -> int, interval: int): (c: Option<nat>)
    requires |s.towers| > 0
  {
    var f := FirstFresh(s.towers, 1, 1, Stale(s.blocks, clock, interval));
    if f < |s.towers| then Some(s.towers[f].key.id) else None
  }

  /** On a good list the choice has the least key of all listed blocks that are fresh at their look;
      none means that all listed blocks are stale. */
  lemma ChoiceIsLeast(s: State, clock: nat -> int, interval: int)
    requires Good(s)
    ensures var stale, c := Stale(s.blocks, clock, interval), Choice(s, clock, interval);
            && (c.None? <==> forall p | 1 <= p < |s.towers| :: stale(s.towers[p].key.id, p))
            && (c.Some? ==> exists p | 1 <= p < |s.towers| ::
                  && s.towers[p].key.id == c.value && !stale(c.value, p)
                  && forall q | 1 <= q < |s.towers| && !stale(s.towers[q].key.id, q) ::
                       q == p || Less(s.towers[p].key, s.towers[q].key))
  {
    var ts, stale := s.towers, Stale(s.blocks, clock, interval);
    var f := FirstFresh(ts, 1, 1, stale);
    if f < |ts| {
      forall q | 1 <= q < |ts| && !stale(ts[q].key.id, q) ensures q == f || Less(ts[f].key, ts[q].key) {
        if q != f { assert f < q && InPlace(ts, f, q); }
      }
    }
  }

  // ---- which blocks are listed

  /** A report that changes the block's weight: the only thing that makes a node. */
  ghost predicate Lists(s: State, e: Event, id: nat) {
    && e.StatReport? && e.id == id && id in s.blocks
    && s.blocks[id].Wlc() != s.blocks[id].(conns := e.conns).Wlc()
  }

  /** A write request that finds the block stale, before any fresh one, and can delete its node. */
  ghost predicate Removes(s: State, e: Event, id: nat, interval: int)
    requires |s.towers| > 0
  {
    && e.WriteRequest?
    && exists q | 1 <= q < FirstFresh(s.towers, 1, 1, Stale(s.blocks, e.clock, interval)) ::
         s.towers[q].key.id == id && !Shadowed(s.towers, s.towers[q].key)
  }

  lemma ListedHere(ts: seq<Tower>, p: nat)
    requires 1 <= p < |ts|
    ensures Listed(ts, ts[p].key.id)
  {
  }

  lemma ListedInserted(ts: seq<Tower>, k: nat, t: Tower, id: nat)
    requires 1 <= k <= |ts|
    ensures Listed(Inserted(ts, k, t), id) <==> Listed(ts, id) || id == t.key.id
  {
    var r := Inserted(ts, k, t);
    ListedHere(r, k);
    if Listed(ts, id) {
      var p :| 1 <= p < |ts| && ts[p].key.id == id;
      ListedHere(r, if p < k then p else p + 1);
    }
    if Listed(r, id) && id != t.key.id {
      var p :| 1 <= p < |r| && r[p].key.id == id;
      ListedHere(ts, if p < k then p else p - 1);
    }
  }

  lemma ListedRemoved(ts: seq<Tower>, k: nat, id: nat)
    requires 1 <= k < |ts| && ts[k].key.id != id
    ensures Listed(Removed(ts, k), id) <==> Listed(ts, id)
  {
    var r := Removed(ts, k);
    if Listed(ts, id) {
      var p :| 1 <= p < |ts| && ts[p].key.id == id;
      ListedHere(r, if p < k then p else p - 1);
    }
    if Listed(r, id) {
      var p :| 1 <= p < |r| && r[p].key.id == id;
      ListedHere(ts, if p < k then p else p + 1);
    }
  }

  lemma AddLists(ts: seq<Tower>, oldWlc: int, newWlc: int, id: nat, height: nat, j: nat)
    requires |ts| > 0 && Sorted(ts) && oldWlc != newWlc
    ensures Listed(Add(ts, oldWlc, newWlc, id, height), j) <==> Listed(ts, j) || j == id
  {
    var k := Key(oldWlc, id);
    var ts' := if Unmasked(ts, k) then WithoutKey(ts, k) else ts;
    if j != id && Unmasked(ts, k) {
      RankHolds(ts, k);
      ListedRemoved(ts, Rank(ts, k), j);
    }
    ListedInserted(ts', Rank(ts', Key(newWlc, id)), Tower(Key(newWlc, id), height), j);
  }

  /** The sweep leaves position q alone. */
  ghost predicate Spared(ts: seq<Tower>, f: nat, q: nat)
    requires q < |ts|
  {
    f <= q || Shadowed(ts, ts[q].key)
  }

  lemma SweepSpares(s: State, stale: Verdict, id: nat)
    requires Good(s)
    ensures Listed(Sweep(s.towers, 1, 1, stale), id)
       <==> exists q | 1 <= q < |s.towers| ::
              Spared(s.towers, FirstFresh(s.towers, 1, 1, stale), q) && s.towers[q].key.id == id
  {
    var ts := s.towers;
    var r, f := Sweep(ts, 1, 1, stale), FirstFresh(ts, 1, 1, stale);
    SweepExact(s, stale);
    var left := set q | 1 <= q < |ts| && Spared(ts, f, q) :: ts[q];
    assert Nodes(r) == left;
    if p :| 1 <= p < |r| && r[p].key.id == id {
      assert r[p] in left;
      var q :| 1 <= q < |ts| && Spared(ts, f, q) && ts[q] == r[p];
    }
    if q :| 1 <= q < |ts| && Spared(ts, f, q) && ts[q].key.id == id {
      assert ts[q] in left && ts[q] in Nodes(r);
      var p :| 1 <= p < |r| && r[p] == ts[q];
    }
  }

  lemma WriteLists(s: State, clock: nat -> int, interval: int, id: nat)
    requires Good(s)
    ensures Listed(Write(s, clock, interval).towers, id)
       <==> Listed(s.towers, id) && !Removes(s, WriteRequest(clock), id, interval)
  {
    var ts, stale := s.towers, Stale(s.blocks, clock, interval);
    SweepSpares(s, stale, id);
    if q :| 1 <= q < |ts| && ts[q].key.id == id {
      assert Spared(ts, FirstFresh(ts, 1, 1, stale), q)
          || (q < FirstFresh(ts, 1, 1, stale) && !Shadowed(ts, ts[q].key));
    }
  }

  lemma StepLists(s: State, e: Event, interval: int, id: nat)
    requires Good(s)
    ensures Listed(Apply(s, e, interval).towers, id)
       <==> Lists(s, e, id) || (Listed(s.towers, id) && !Removes(s, e, id, interval))
  {
    match e {
      case Register(_, _) =>
      case Heartbeat(_, _) =>
      case StatReport(j, conns, _, height) =>
        if j in s.blocks {
          var b := s.blocks[j];
          if b.Wlc() != b.(conns := conns).Wlc() {
            AddLists(s.towers, b.Wlc(), b.(conns := conns).Wlc(), j, height, id);
          }
        }
      case WriteRequest(clock) => WriteLists(s, clock, interval, id);
    }
  }

  /** The state after the first i events. */
  ghost function After(s: State, es: seq<Event>, interval: int, i: nat): (s': State)
    requires |s.towers| > 0 && Sorted(s.towers) && i <= |es|
    ensures |s'.towers| > 0 && Sorted(s'.towers)
  {
    if i == 0 then s else Apply(After(s, es, interval, i - 1), es[i - 1], interval)
  }

  lemma {:induction false} AfterGood(s: State, es: seq<Event>, interval: int, i: nat)
    requires GoodThroughout(s, es, interval) && i <= |es|
    ensures GoodThroughout(After(s, es, interval, i), es[i..], interval)
  {
    if i == 0 {
      assert es[0..] == es;
    } else {
      AfterGood(s, es, interval, i - 1);
      assert es[i - 1..][1..] == es[i..];
    }
  }

  /** Something came at i and has not gone before n. */
  ghost predicate Since(comes: nat -> bool, goes: nat -> bool, i: nat, n: nat) {
    i < n && comes(i) && forall j | i < j < n :: !goes(j)
  }

  ghost predicate There(comes: nat -> bool, goes: nat -> bool, n: nat) {
    exists i: nat :: Since(comes, goes, i, n)
  }

  lemma ThereStep(comes: nat -> bool, goes: nat -> bool, n: nat)
    ensures There(comes, goes, n + 1) <==> comes(n) || (There(comes, goes, n) && !goes(n))
  {
    if comes(n) { assert Since(comes, goes, n, n + 1); }
    if There(comes, goes, n) && !goes(n) {
      var i: nat :| Since(comes, goes, i, n);
      assert Since(comes, goes, i, n + 1);
    }
    if There(comes, goes, n + 1) && !comes(n) {
      var i: nat :| Since(comes, goes, i, n + 1);
      assert Since(comes, goes, i, n);
    }
  }

  ghost function ListsAt(s: State, es: seq<Event>, interval: int, id: nat): (comes: nat -> bool)
    requires |s.towers| > 0 && Sorted(s.towers)
  {
    (i: nat) => i < |es| && Lists(After(s, es, interval, i), es[i], id)
  }

  ghost function RemovesAt(s: State, es: seq<Event>, interval: int, id: nat): (goes: nat -> bool)
    requires |s.towers| > 0 && Sorted(s.towers)
  {
    (i: nat) => i < |es| && Removes(After(s, es, interval, i), es[i], id, interval)
  }

  /** Some event before n made a node for the block, and none since then has removed it. */
  ghost predicate Kept(s: State, es: seq<Event>, interval: int, id: nat, n: nat)
    requires |s.towers| > 0 && Sorted(s.towers) && n <= |es|
  {
    There(ListsAt(s, es, interval, id), RemovesAt(s, es, interval, id), n)
  }

  lemma KeptStep(s: State, es: seq<Event>, interval: int, id: nat, n: nat)
    requires |s.towers| > 0 && Sorted(s.towers) && n < |es|
    ensures var s' := After(s, es, interval, n);
            Kept(s, es, interval, id, n + 1)
            <==> Lists(s', es[n], id) || (Kept(s, es, interval, id, n) && !Removes(s', es[n], id, interval))
  {
    ThereStep(ListsAt(s, es, interval, id), RemovesAt(s, es, interval, id), n);
  }

  /** From an empty list, on a run that stays good, a block has a node if and only if some report
      changed its weight and no write request since then has found it stale and removed it. */
  lemma {:induction false} ListedExact(s: State, es: seq<Event>, interval: int, id: nat, n: nat)
    requires GoodThroughout(s, es, interval) && |s.towers| == 1 && n <= |es|
    ensures Listed(After(s, es, interval, n).towers, id) <==> Kept(s, es, interval, id, n)
  {
    if n > 0 {
      ListedExact(s, es, interval, id, n - 1);
      AfterGood(s, es, interval, n - 1);
      StepLists(After(s, es, interval, n - 1), es[n - 1], interval, id);
      KeptStep(s, es, interval, id, n - 1);
    }
  }

  // ---- what the events make of a block's record

  ghost predicate Reports(e: Event, id: nat) {
    (e.Heartbeat? || e.StatReport?) && e.id == id
  }

  /** The block is registered after n events. */
  ghost predicate KnownAt(s: State, es: seq<Event>, id: nat, n: nat)
    requires n <= |es|
  {
    if n == 0 then id in s.blocks else KnownAt(s, es, id, n - 1) || (es[n - 1].Register? && es[n - 1].id == id)
  }

  /** The time of the last heartbeat or report since it is. */
  ghost function BeatAt(s: State, es: seq<Event>, id: nat, n: nat): (h: int)
    requires n <= |es|
  {
    if n == 0 then if id in s.blocks then s.blocks[id].heartbeat else 0
    else if KnownAt(s, es, id, n - 1) && Reports(es[n - 1], id) then es[n - 1].now else BeatAt(s, es, id, n - 1)
  }

  /** The connections of the last report. */
  ghost function ConnsAt(s: State, es: seq<Event>, id: nat, n: nat): (c: int)
    requires n <= |es|
  {
    if n == 0 then if id in s.blocks then s.blocks[id].conns else 0
    else if KnownAt(s, es, id, n - 1) && es[n - 1].StatReport? && es[n - 1].id == id then es[n - 1].conns
    else ConnsAt(s, es, id, n - 1)
  }

  /** The weight of the last registration. */
  ghost function WeightAt(s: State, es: seq<Event>, id: nat, n: nat): (w: int)
    requires n <= |es|
  {
    if n == 0 then if id in s.blocks then s.blocks[id].weight else 0
    else if es[n - 1].Register? && es[n - 1].id == id then es[n - 1].weight else WeightAt(s, es, id, n - 1)
  }

  ghost function KeyAt(s: State, es: seq<Event>, id: nat, n: nat): (k: Key)
    requires n <= |es|
  {
    Key(ConnsAt(s, es, id, n) * WeightAt(s, es, id, n), id)
  }

  /** The record b has the values that the events give it. */
  ghost predicate HasFields(b: Block, heartbeat: int, conns: int, weight: int) {
    b.heartbeat == heartbeat && b.conns == conns && b.weight == weight
  }

  /** One event and the record of one block. */
  lemma FieldsStep(s: State, e: Event, interval: int, id: nat, blocks: map<nat, Block>)
    requires |s.towers| > 0 && Sorted(s.towers) && blocks == Apply(s, e, interval).blocks
    ensures id in blocks <==> id in s.blocks || (e.Register? && e.id == id)
    ensures id in s.blocks ==>
              HasFields(blocks[id], if Reports(e, id) then e.now else s.blocks[id].heartbeat,
                        if e.StatReport? && e.id == id then e.conns else s.blocks[id].conns,
                        if e.Register? && e.id == id then e.weight else s.blocks[id].weight)
    ensures id !in s.blocks && id in blocks ==> HasFields(blocks[id], 0, 0, e.weight)
  {
  }

  lemma {:induction false} FieldsAt(s: State, es: seq<Event>, interval: int, id: nat, n: nat)
    requires |s.towers| > 0 && Sorted(s.towers) && n <= |es|
    ensures var blocks := After(s, es, interval, n).blocks;
            && (id in blocks <==> KnownAt(s, es, id, n))
            && (id in blocks ==>
                  HasFields(blocks[id], BeatAt(s, es, id, n), ConnsAt(s, es, id, n), WeightAt(s, es, id, n)))
            && (id !in blocks ==> BeatAt(s, es, id, n) == 0 && ConnsAt(s, es, id, n) == 0)
  {
    if n > 0 {
      FieldsAt(s, es, interval, id, n - 1);
      FieldsStep(After(s, es, interval, n - 1), es[n - 1], interval, id, After(s, es, interval, n).blocks);
    }
  }

  /** Event i puts the block off line. */
  ghost function SweptAt(s: State, es: seq<Event>, interval: int, id: nat): (comes: nat -> bool)
    requires |s.towers| > 0 && Sorted(s.towers)
  {
    (i: nat) => i < |es| && es[i].WriteRequest? && Swept(After(s, es, interval, i), es[i].clock, interval, id)
  }

  /** Event i is a message from the block. */
  ghost function HeardAt(es: seq<Event>, id: nat): (goes: nat -> bool) {
    (i: nat) => i < |es| && !es[i].WriteRequest? && es[i].id == id
  }

  lemma OffLineStep(s: State, e: Event, interval: int, id: nat)
    requires Good(s) && id in s.blocks
    ensures id in Apply(s, e, interval).blocks
    ensures Apply(s, e, interval).blocks[id].offLine
       <==> if e.WriteRequest? then s.blocks[id].offLine || Swept(s, e.clock, interval, id)
            else s.blocks[id].offLine && e.id != id
  {
    if e.WriteRequest? { WriteMarks(s, e.clock, interval, id); }
  }

  /** On a run that stays good a block is off line if and only if some write request swept it and it has
      not been heard of since. */
  lemma {:induction false} OffLineExact(s: State, es: seq<Event>, interval: int, id: nat, n: nat)
    requires GoodThroughout(s, es, interval) && id in s.blocks && !s.blocks[id].offLine && n <= |es|
    ensures var blocks := After(s, es, interval, n).blocks;
            id in blocks
            && (blocks[id].offLine <==> There(SweptAt(s, es, interval, id), HeardAt(es, id), n))
  {
    if n > 0 {
      OffLineExact(s, es, interval, id, n - 1);
      AfterGood(s, es, interval, n - 1);
      OffLineStep(After(s, es, interval, n - 1), es[n - 1], interval, id);
      ThereStep(SweptAt(s, es, interval, id), HeardAt(es, id), n - 1);
    }
  }

  ghost predicate Runs(clock: nat -> int) {
    forall i, j | i <= j :: clock(i) <= clock(j)
  }

  /** What a write request answers after such a run, in terms of the records. */
  lemma ChoiceOfKept(s: State, es: seq<Event>, interval: int, clock: nat -> int)
    requires GoodThroughout(s, es, interval) && |s.towers| == 1 && Runs(clock)
    ensures var n, s' := |es|, After(s, es, interval, |es|);
            var begin, end := clock(1), clock(|s'.towers|);
            match Choice(s', clock, interval)
            case None =>
              forall id | Kept(s, es, interval, id, n) :: id in s'.blocks && end - s'.blocks[id].heartbeat > interval
            case Some(c) =>
              && Kept(s, es, interval, c, n) && c in s'.blocks && begin - s'.blocks[c].heartbeat <= interval
              && forall id | Kept(s, es, interval, id, n) && id != c ::
                   && id in s'.blocks
                   && (end - s'.blocks[id].heartbeat <= interval ==>
                         Less(Key(s'.blocks[c].Wlc(), c), Key(s'.blocks[id].Wlc(), id)))
  {
    var n, s' := |es|, After(s, es, interval, |es|);
    AfterGood(s, es, interval, n);
    ChoiceIsLeast(s', clock, interval);
    var ts := s'.towers;
    forall id | Kept(s, es, interval, id, n) ensures Listed(ts, id) { ListedExact(s, es, interval, id, n); }
    var f := FirstFresh(ts, 1, 1, Stale(s'.blocks, clock, interval));
    if f < |ts| {
      ListedExact(s, es, interval, ts[f].key.id, n);
    }
  }

  /** The same in terms of the events of the run: among the blocks that have been kept, the least by
      last reported connections times last registered weight, and id, that was heard of within the
      interval, with the time the walk takes as the only doubt. */
  lemma ChoiceExact(s: State, es: seq<Event>, interval: int, clock: nat -> int, n: nat, s': State)
    requires GoodThroughout(s, es, interval) && |s.towers| == 1 && Runs(clock)
    requires n == |es| && s' == After(s, es, interval, n)
    ensures var begin, end := clock(1), clock(|s'.towers|);
            match Choice(s', clock, interval)
            case None =>
              forall id | Kept(s, es, interval, id, n) :: end - BeatAt(s, es, id, n) > interval
            case Some(c) =>
              && Kept(s, es, interval, c, n) && begin - BeatAt(s, es, c, n) <= interval
              && forall id | Kept(s, es, interval, id, n) && id != c && end - BeatAt(s, es, id, n) <= interval ::
                   Less(KeyAt(s, es, c, n), KeyAt(s, es, id, n))
  {
    ChoiceOfKept(s, es, interval, clock);
    match Choice(s', clock, interval)
    case None =>
      forall id | Kept(s, es, interval, id, n) ensures clock(|s'.towers|) - BeatAt(s, es, id, n) > interval {
        RecordAt(s, es, interval, id, n, s');
      }
    case Some(c) =>
      RecordAt(s, es, interval, c, n, s');
      forall id | Kept(s, es, interval, id, n) && id != c && clock(|s'.towers|) - BeatAt(s, es, id, n) <= interval
        ensures Less(KeyAt(s, es, c, n), KeyAt(s, es, id, n))
      {
        RecordAt(s, es, interval, id, n, s');
      }
  }

  lemma RecordAt(s: State, es: seq<Event>, interval: int, id: nat, n: nat, s': State)
    requires |s.towers| > 0 && Sorted(s.towers) && n <= |es| && s' == After(s, es, interval, n)
    ensures id in s'.blocks ==>
              && s'.blocks[id].heartbeat == BeatAt(s, es, id, n)
              && Key(s'.blocks[id].Wlc(), id) == KeyAt(s, es, id, n)
  {
    FieldsAt(s, es, interval, id, n);
  }

  /** A registered block that has no connections and reports none gets no node: it is fresh, it is the
      only one, and a write request finds nobody. */
  lemma IdleBlockIsPassedOver(now: int, interval: nat, height: nat)
    ensures var s := State([Tower(Key(0, 0), MAX_LEVEL)], map[1 := Block(0, 1, 0, false)]);
            var s' := Apply(s, StatReport(1, 0, now, height), interval);
            && Good(s) && Good(s') && 1 in s'.blocks && now - s'.blocks[1].heartbeat <= interval
            && Choice(s', _ => now, interval) == None
  {
  }

  ghost predicate Registered(ts: seq<Tower>, ids: set<nat>) {
    forall p | 1 <= p < |ts| :: ts[p].key.id in ids
  }

  /** cluster_wlc_write_block_get: walk level 0, drop what is stale, stop at what is fresh. */
  method WriteBlockGet(list: SkipList, blocks: map<nat, Block>, clock: nat -> int, interval: int)
    returns (blocks': map<nat, Block>, chosen: Option<nat>)
    requires list.Valid() && Registered(list.towers, blocks.Keys)
    modifies list
    ensures list.Valid() && Registered(list.towers, blocks'.Keys)
    ensures State(list.towers, blocks') == Write(State(old(list.towers), blocks), clock, interval)
    ensures chosen == Choice(State(old(list.towers), blocks), clock, interval)
  {
    ghost var ts0, stale := list.towers, Stale(blocks, clock, interval);
    ghost var p, o;
    blocks', chosen, p, o := SweepList(list, blocks, clock, interval, stale);
    SweepStop(list.towers, p, ts0, o, stale);
    SweepRegistered(ts0, 1, 1, stale, blocks.Keys);
    MarkedIs(blocks, ts0, o);
  }

  lemma {:induction false} SweepRegistered(ts: seq<Tower>, p: nat, k: nat, stale: Verdict, ids: set<nat>)
    requires 1 <= p <= |ts| && Sorted(ts) && Registered(ts, ids)
    ensures Registered(Sweep(ts, p, k, stale), ids)
    decreases |ts| - p
  {
    if p < |ts| && stale(ts[p].key.id, k) {
      if Unmasked(ts, ts[p].key) {
        RegisteredWithout(ts, p, ids);
        SweepRegistered(WithoutKey(ts, ts[p].key), p, k + 1, stale, ids);
      } else {
        SweepRegistered(ts, p + 1, k + 1, stale, ids);
      }
    }
  }

  /** The verdict at look k is the heartbeat test at this time. */
  ghost predicate Judges(stale: Verdict, blocks: map<nat, Block>, k: nat, now: int, interval: int) {
    forall id | id in blocks :: stale(id, k) <==> now - blocks[id].heartbeat > interval
  }

  /** The records once the sweep has come to ts0[o]. */
  ghost function Marked(blocks: map<nat, Block>, ts0: seq<Tower>, o: nat): (r: map<nat, Block>)
    requires o <= |ts0|
  {
    if o <= 1 then blocks else OffLine(Marked(blocks, ts0, o - 1), ts0[o - 1].key.id)
  }

  function OffLine(blocks: map<nat, Block>, id: nat): (r: map<nat, Block>) {
    if id in blocks then blocks[id := blocks[id].(offLine := true)] else blocks
  }

  lemma {:induction false} MarkedKeeps(blocks: map<nat, Block>, ts0: seq<Tower>, o: nat)
    requires o <= |ts0|
    ensures
      var r := Marked(blocks, ts0, o);
      r.Keys == blocks.Keys && forall id | id in blocks :: r[id].heartbeat == blocks[id].heartbeat
  {
    if o > 1 { MarkedKeeps(blocks, ts0, o - 1); }
  }

  lemma {:induction false} MarkedIs(blocks: map<nat, Block>, ts0: seq<Tower>, o: nat)
    requires 1 <= o <= |ts0| && Registered(ts0, blocks.Keys)
    ensures Marked(blocks, ts0, o) == MarkOff(blocks, Met(ts0, 1, o))
  {
    if o == 1 {
      MarkOffNone(blocks, ts0);
    } else {
      MarkedIs(blocks, ts0, o - 1);
      MarkOffMore(blocks, ts0, o - 1);
    }
  }

  /** The loop of cluster_wlc_write_block_get, which ends in front of the chosen block. */
  method SweepList(list: SkipList, blocks: map<nat, Block>, clock: nat -> int, interval: int, ghost stale: Verdict)
    returns (blocks': map<nat, Block>, chosen: Option<nat>, ghost p: nat, ghost o: nat)
    requires list.Valid() && Registered(list.towers, blocks.Keys)
    requires forall k: nat :: Judges(stale, blocks, k, clock(k), interval)
    modifies list
    ensures list.Valid() && Sweeping(list.towers, p, old(list.towers), o, stale)
    ensures blocks' == Marked(blocks, old(list.towers), o)
    ensures match chosen
            case None => p == |list.towers|
            case Some(id) => p < |list.towers| && id == list.towers[p].key.id && !stale(id, o)
  {
    ghost var ts0 := list.towers;
    p, o := 1, 1;
    var x, look := list.header, 1;
    blocks', chosen := blocks, None;
    SweepBegins(list.mem, list.row, list.towers, list.header, list.tail, list.length, list.level, stale);
    while list.mem[x].forward[0] != NULL
      invariant list.Valid() && Sweeping(list.towers, p, ts0, o, stale) && Standing(list.mem, list.row, x, p)
      invariant blocks' == Marked(blocks, ts0, o) && look == o
      decreases |ts0| - o
    {
      ghost var marked := Marked(blocks, ts0, o);
      Meets(list.mem, list.row, list.towers, x, p, ts0, o, stale, blocks, marked, clock(look), interval);
      x := list.mem[x].forward[0];
      var id := list.mem[x].key.id;
      assert id == list.towers[p].key.id && id in blocks';
      if clock(look) - blocks'[id].heartbeat <= interval { assert !stale(id, o); return blocks', Some(id), p, o; }
      assert stale(id, o);
      blocks' := OffLine(blocks', id);
      assert blocks' == Marked(blocks, ts0, o + 1);
      p := Drop(list, x, p, ts0, o, stale);
      look, o := look + 1, o + 1;
    }
  }

  lemma SweepBegins(
    mem: Memory, row: seq<nat>, ts: seq<Tower>, header: nat, tail: nat, length: nat, level: nat, stale: Verdict)
    requires Whole(mem, row, ts, header, tail, length, level)
    ensures Sweeping(ts, 1, ts, 1, stale) && Standing(mem, row, header, 1)
  {
    BottomNext(mem, row, ts, level, 0);
    SameSelf(ts, 1);
  }

  /** The node that the walk comes to next, and what the heartbeat test finds. */
  lemma Meets(
    mem: Memory, row: seq<nat>, ts: seq<Tower>, x: nat, p: nat, ts0: seq<Tower>, o: nat, stale: Verdict,
    blocks: map<nat, Block>, marked: map<nat, Block>, now: int, interval: int)
    requires Shape(mem, row, ts) && Sweeping(ts, p, ts0, o, stale)
    requires Standing(mem, row, x, p) && mem[x].forward[0] != NULL
    requires Registered(ts0, blocks.Keys) && marked == Marked(blocks, ts0, o)
    requires Judges(stale, blocks, o, now, interval)
    ensures var y := mem[x].forward[0];
            && p < |ts| && o < |ts0| && y in mem && y == row[p] && mem[y].key == ts[p].key
            && ts[p].key.id in marked
            && (stale(ts[p].key.id, o) <==> now - marked[ts[p].key.id].heartbeat > interval)
            && Marked(blocks, ts0, o + 1) == OffLine(marked, ts[p].key.id)
  {
    NextRegistered(ts, p, ts0, o, stale, blocks.Keys);
    MarkedKeeps(blocks, ts0, o);
  }

  lemma NextRegistered(ts: seq<Tower>, p: nat, ts0: seq<Tower>, o: nat, stale: Verdict, ids: set<nat>)
    requires Sweeping(ts, p, ts0, o, stale) && p < |ts| && Registered(ts0, ids)
    ensures o < |ts0| && ts[p] == ts0[o] && ts[p].key.id in ids
  {
  }

  /** The forward pointer of x leads to position p. */
  ghost predicate Standing(mem: Memory, row: seq<nat>, x: nat, p: nat) {
    x in mem && |mem[x].forward| > 0 && mem[x].forward[0] == Ref(row, p)
  }

  /** What the write chooser does with a stale block: the sweep moves on by one. */
  method Drop(
    list: SkipList, x: nat, ghost p: nat, ghost ts0: seq<Tower>, ghost o: nat, ghost stale: Verdict)
    returns (ghost p': nat)
    requires list.Valid() && Sweeping(list.towers, p, ts0, o, stale)
    requires p < |list.towers| && x == list.row[p] && stale(list.towers[p].key.id, o)
    modifies list
    ensures list.Valid() && Sweeping(list.towers, p', ts0, o + 1, stale)
    ensures Standing(list.mem, list.row, x, p')
  {
    SweepStep(list.towers, p, ts0, o, stale);
    p' := DeleteMet(list, x, p);
  }

  lemma RegisteredWithout(ts: seq<Tower>, p: nat, ids: set<nat>)
    requires |ts| > 0 && Sorted(ts) && Registered(ts, ids) && p < |ts|
    ensures Unmasked(ts, ts[p].key) ==> Registered(WithoutKey(ts, ts[p].key), ids)
  {
  }

  lemma MarkOffNone(blocks: map<nat, Block>, ts: seq<Tower>)
    requires |ts| > 0
    ensures MarkOff(blocks, Met(ts, 1, 1)) == blocks
  {
  }

  lemma MarkOffMore(blocks: map<nat, Block>, ts: seq<Tower>, o: nat)
    requires 1 <= o < |ts| && ts[o].key.id in blocks
    ensures MarkOff(blocks, Met(ts, 1, o + 1)) == OffLine(MarkOff(blocks, Met(ts, 1, o)), ts[o].key.id)
  {
    assert Met(ts, 1, o + 1) == Met(ts, 1, o) + {ts[o].key.id};
  }

  /** From p and from o on the two rows are the same. */
  ghost predicate SameFrom(ts: seq<Tower>, p: nat, ts0: seq<Tower>, o: nat)
    requires p <= |ts| && o <= |ts0|
    decreases |ts| - p
  {
    |ts| - p == |ts0| - o && (p < |ts| ==> ts[p] == ts0[o] && SameFrom(ts, p + 1, ts0, o + 1))
  }

  /** A sweep of ts0 that has come to ts0[o], now at position p of what is left. */
  ghost predicate Sweeping(ts: seq<Tower>, p: nat, ts0: seq<Tower>, o: nat, stale: Verdict) {
    && Sorted(ts) && Sorted(ts0) && 1 <= p <= |ts| && 1 <= o <= |ts0|
    && SameFrom(ts, p, ts0, o)
    && Sweep(ts, p, o, stale) == Sweep(ts0, 1, 1, stale)
    && forall q | 1 <= q < o :: stale(ts0[q].key.id, q)
  }

  lemma SweepStep(ts: seq<Tower>, p: nat, ts0: seq<Tower>, o: nat, stale: Verdict)
    requires Sweeping(ts, p, ts0, o, stale) && p < |ts| && stale(ts[p].key.id, o)
    ensures if Unmasked(ts, ts[p].key) then Sweeping(WithoutKey(ts, ts[p].key), p, ts0, o + 1, stale)
            else Sweeping(ts, p + 1, ts0, o + 1, stale)
  {
    if Unmasked(ts, ts[p].key) {
      RankHolds(ts, ts[p].key);
      SameRemoved(ts, Rank(ts, ts[p].key), p, ts0, o + 1);
    }
  }

  lemma {:induction false} SameSelf(ts: seq<Tower>, p: nat)
    requires p <= |ts|
    ensures SameFrom(ts, p, ts, p)
    decreases |ts| - p
  {
    if p < |ts| { SameSelf(ts, p + 1); }
  }

  lemma {:induction false} SameRemoved(ts: seq<Tower>, k: nat, p: nat, ts0: seq<Tower>, o: nat)
    requires k <= p < |ts| && o <= |ts0| && SameFrom(ts, p + 1, ts0, o)
    ensures SameFrom(Removed(ts, k), p, ts0, o)
    decreases |ts| - p
  {
    if p + 1 < |ts| { SameRemoved(ts, k, p + 1, ts0, o + 1); }
  }

  lemma SweepStop(ts: seq<Tower>, p: nat, ts0: seq<Tower>, o: nat, stale: Verdict)
    requires Sweeping(ts, p, ts0, o, stale) && (p < |ts| ==> !stale(ts[p].key.id, o))
    ensures Sweep(ts0, 1, 1, stale) == ts && FirstFresh(ts0, 1, 1, stale) == o
  {
    FirstFreshUnique(ts0, 1, 1, stale, o);
  }

  /** wlcsl_delete on the key of the p-th node x, as the write chooser calls it: either way
      the successor of x is the node to look at next. */
  method DeleteMet(list: SkipList, x: nat, ghost p: nat) returns (ghost p': nat)
    requires list.Valid() && 1 <= p < |list.row| && x == list.row[p]
    modifies list
    ensures list.Valid() && 1 <= p' <= |list.row|
    ensures x in list.mem && |list.mem[x].forward| > 0 && list.mem[x].forward[0] == Ref(list.row, p')
    ensures var ts := old(list.towers);
            if Unmasked(ts, ts[p].key) then list.towers == WithoutKey(ts, ts[p].key) && p' == p
            else list.towers == ts && p' == p + 1
  {
    ghost var was, ts, row := list.mem, list.towers, list.row;
    var key := list.mem[x].key;
    BottomNext(list.mem, row, ts, list.level, p);
    var found := list.Delete(key.wlc, key.id);
    p' := if found then p else p + 1;
    if found {
      SuccessorAfterDelete(was, list.mem, row, list.row, ts, list.towers, list.level, Rank(ts, key), p);
    }
  }

  lemma SuccessorAfterDelete(
    mem: Memory, mem': Memory, row: seq<nat>, row': seq<nat>, ts: seq<Tower>, ts': seq<Tower>, level: nat,
    k: nat, p: nat)
    requires Deleted(mem, mem', row, row', ts, ts', k) && k <= p < |row| && row[p] in mem
    requires |mem[row[p]].forward| > 0 && mem[row[p]].forward[0] == Ref(row, p + 1)
    requires Shape(mem', row', ts') && Linked(mem', row', ts') && Leveled(ts', level)
    ensures row[p] in mem' && |mem'[row[p]].forward| > 0 && mem'[row[p]].forward[0] == Ref(row', p)
  {
    if k < p {
      assert row'[p - 1] == row[p];
      BottomNext(mem', row', ts', level, p - 1);
    }
  }

  /** On level 0 every pointer leads to the neighbour. */
  lemma BottomNext(mem: Memory, row: seq<nat>, ts: seq<Tower>, level: nat, p: nat)
    requires Shape(mem, row, ts) && Linked(mem, row, ts) && Leveled(ts, level) && p < |row|
    ensures |mem[row[p]].forward| > 0 && mem[row[p]].forward[0] == Ref(row, p + 1)
  {
    NextUnique(ts, p, 0, p + 1);
    assert 0 < ts[p].height && mem[row[p]].forward[0] == Ref(row, Next(ts, p, 0));
  }
}
