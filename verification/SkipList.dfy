/** The tracker's skip list of writable blocks, ordered by (wlc, block id).  Nodes live in an
    explicit memory: an address is what the source holds in a pointer, 0 is NULL. */
module SkipLists {
  import opened Rows
  import opened Towers

  const MAX_LEVEL: nat := 16
  const NULL: nat := 0

  /** One allocated node; the length of `forward` is its number of levels. */
  datatype Cell = Cell(key: Key, forward: seq<nat>, backward: nat)

  type Memory = map<nat, Cell>

  function Fill<T>(n: nat, x: T): (s: seq<T>)
    ensures |s| == n && forall i | 0 <= i < n :: s[i] == x
  {
    seq(n, _ => x)
  }

  function SetForward(mem: Memory, a: nat, i: nat, b: nat): (mem': Memory)
    requires a in mem && i < |mem[a].forward|
  {
    mem[a := mem[a].(forward := mem[a].forward[i := b])]
  }

  function SetBackward(mem: Memory, a: nat, b: nat): (mem': Memory)
    requires a in mem
  {
    mem[a := mem[a].(backward := b)]
  }

  // ---- what a row of addresses, the header first, has to look like

  ghost function Ref(row: seq<nat>, q: nat): nat {
    if q < |row| then row[q] else NULL
  }

  ghost predicate Distinct(row: seq<nat>) {
    forall p: nat, q: nat | p < q < |row| :: Apart(row, p, q)
  }

  ghost predicate Apart(row: seq<nat>, p: nat, q: nat)
    requires p < |row| && q < |row|
  {
    row[p] != row[q]
  }

  lemma SamePlace(row: seq<nat>, p: nat, q: nat)
    requires Distinct(row) && p < |row| && q < |row|
    ensures row[p] == row[q] <==> p == q
  {
    assert (p < q ==> Apart(row, p, q)) && (q < p ==> Apart(row, q, p));
  }

  lemma DistinctInserted(row: seq<nat>, k: nat, x: nat)
    requires k <= |row| && Distinct(row) && x !in row
    ensures Distinct(Inserted(row, k, x))
  {
    var row' := Inserted(row, k, x);
    forall p: nat, q: nat | p < q < |row'| ensures Apart(row', p, q) {
      assert row'[p] == if p < k then row[p] else if p == k then x else row[p - 1];
      assert row'[q] == if q < k then row[q] else if q == k then x else row[q - 1];
      if p != k && q != k { SamePlace(row, if p < k then p else p - 1, if q < k then q else q - 1); }
    }
  }

  lemma DistinctRemoved(row: seq<nat>, k: nat)
    requires k < |row| && Distinct(row)
    ensures Distinct(Removed(row, k))
  {
    var row' := Removed(row, k);
    forall p: nat, q: nat | p < q < |row'| ensures Apart(row', p, q) {
      SamePlace(row, if p < k then p else p + 1, if q < k then q else q + 1);
    }
  }

  /** The nodes carry the keys and heights of the towers. */
  ghost predicate Shape(mem: Memory, row: seq<nat>, ts: seq<Tower>) {
    && |row| == |ts| > 0
    && (forall p | 0 <= p < |row| :: row[p] != NULL && row[p] in mem)
    && (forall p | 0 <= p < |row| :: ts[p] == Tower(mem[row[p]].key, |mem[row[p]].forward|))
  }

  /** Every forward pointer leads to the next node tall enough. */
  ghost predicate Linked(mem: Memory, row: seq<nat>, ts: seq<Tower>)
    requires Shape(mem, row, ts)
  {
    forall p, i | 0 <= p < |row| && 0 <= i < ts[p].height ::
      mem[row[p]].forward[i] == Ref(row, Next(ts, p, i))
  }

  ghost predicate Back(mem: Memory, row: seq<nat>, p: nat)
    requires 1 <= p < |row| && row[p] in mem
  {
    mem[row[p]].backward == if p == 1 then NULL else row[p - 1]
  }

  /** Backward pointers and the tail mirror level 0. */
  ghost predicate Mirrored(mem: Memory, row: seq<nat>, tail: nat)
    requires |row| > 0 && forall p | 0 <= p < |row| :: row[p] in mem
  {
    && (forall p: nat | 1 <= p < |row| :: Back(mem, row, p))
    && tail == (if |row| == 1 then NULL else row[|row| - 1])
  }

  /** `level` is the height of the highest tower, 1 for an empty list. */
  ghost predicate Leveled(ts: seq<Tower>, level: nat)
    requires |ts| > 0
  {
    && 1 <= level <= MAX_LEVEL == ts[0].height
    && (forall p | 1 <= p < |ts| :: 1 <= ts[p].height <= level)
    && (level > 1 ==> Next(ts, 0, level - 1) < |ts|)
  }

  lemma LeveledInserted(ts: seq<Tower>, k: nat, t: Tower, level: nat)
    requires |ts| > 0 && 1 <= k <= |ts| && Leveled(ts, level) && 1 <= t.height <= MAX_LEVEL
    ensures Leveled(Inserted(ts, k, t), if level < t.height then t.height else level)
  {
    var level' := if level < t.height then t.height else level;
    NextInserted(ts, k, t, 0, level' - 1);
  }

  /** On level 0 the finger is the neighbour. */
  lemma BottomFinger(ts: seq<Tower>, path: seq<nat>, k: nat, level: nat)
    requires |ts| > 0 && Leveled(ts, level) && Fingers(ts, path, k) && |path| > 0
    ensures path[0] == k - 1
  {
    NextUnique(ts, path[0], 0, path[0] + 1);
  }

  // ---- splicing one node in

  /** x sits behind its finger on each of its levels; every other pointer is as before. */
  ghost predicate Spliced(mem: Memory, mem': Memory, x: nat, update: seq<nat>, n: nat)
    requires x in mem && n <= |update|
    requires forall i | 0 <= i < n :: update[i] in mem && i < |mem[update[i]].forward|
  {
    && mem'.Keys == mem.Keys
    && (forall a | a in mem :: mem'[a].key == mem[a].key && mem'[a].backward == mem[a].backward)
    && (forall a | a in mem :: |mem'[a].forward| == |mem[a].forward|)
    && (forall a, j {:trigger mem'[a].forward[j]} | a in mem && 0 <= j < |mem[a].forward| ::
          mem'[a].forward[j] == if a == x && j < n then mem[update[j]].forward[j]
                                else if j < n && a == update[j] then x
                                else mem[a].forward[j])
  }

  /** An old pointer, redirected where x got in between, is the pointer of the longer row. */
  lemma LinkOld(row: seq<nat>, ts: seq<Tower>, path: seq<nat>, k: nat, x: nat, t: Tower, p: nat, j: nat)
    requires |row| == |ts| && Fingers(ts, path, k) && t.height <= |path|
    requires p < |ts| && j < ts[p].height
    ensures (if j < t.height && p == path[j] then x else Ref(row, Next(ts, p, j)))
         == Ref(Inserted(row, k, x), Next(Inserted(ts, k, t), if p < k then p else p + 1, j))
  {
    NextInserted(ts, k, t, if p < k then p else p + 1, j);
    if p < k && j < |path| { FingersLast(ts, path, k, j, p); }
  }

  /** The pointer x takes over from its finger is x's pointer in the longer row. */
  lemma LinkNew(row: seq<nat>, ts: seq<Tower>, path: seq<nat>, k: nat, x: nat, t: Tower, j: nat)
    requires |row| == |ts| && Fingers(ts, path, k) && j < t.height <= |path|
    ensures Ref(row, Next(ts, path[j], j)) == Ref(Inserted(row, k, x), Next(Inserted(ts, k, t), k, j))
  {
    NextInserted(ts, k, t, k, j);
    NextUnique(ts, k - 1, j, Next(ts, path[j], j));
  }

  ghost predicate FingersOf(row: seq<nat>, ts: seq<Tower>, update: seq<nat>, path: seq<nat>, k: nat) {
    |row| == |ts| && |update| == |path| && Fingers(ts, path, k) && Aligned(row, path, update, 0)
  }

  lemma SplicedShape(
    mem: Memory, mem': Memory, row: seq<nat>, ts: seq<Tower>, x: nat, update: seq<nat>, path: seq<nat>, k: nat)
    requires Shape(mem, row, ts) && FingersOf(row, ts, update, path, k)
    requires x in mem && x != NULL && |mem[x].forward| <= |path| && Spliced(mem, mem', x, update, |mem[x].forward|)
    ensures Shape(mem', Inserted(row, k, x), Inserted(ts, k, Tower(mem[x].key, |mem[x].forward|)))
  {
    var row', ts' := Inserted(row, k, x), Inserted(ts, k, Tower(mem[x].key, |mem[x].forward|));
    forall p | 0 <= p < |row'|
      ensures row'[p] != NULL && row'[p] in mem' && ts'[p] == Tower(mem'[row'[p]].key, |mem'[row'[p]].forward|)
    {
      var q := if p < k then p else p - 1;
      assert p != k ==> row'[p] == row[q] && ts'[p] == ts[q];
    }
  }

  /** Read through positions: what a splice does to the pointers of the row. */
  lemma SplicedPointer(
    mem: Memory, mem': Memory, row: seq<nat>, ts: seq<Tower>, x: nat, update: seq<nat>, path: seq<nat>, k: nat,
    q: nat, j: nat)
    requires Shape(mem, row, ts) && Linked(mem, row, ts) && Distinct(row) && FingersOf(row, ts, update, path, k)
    requires x in mem && x !in row && |mem[x].forward| <= |path|
    requires Spliced(mem, mem', x, update, |mem[x].forward|)
    requires q < |row| && j < ts[q].height
    ensures mem'[row[q]].forward[j]
         == if j < |mem[x].forward| && q == path[j] then x else Ref(row, Next(ts, q, j))
  {
    assert mem[row[q]].forward[j] == Ref(row, Next(ts, q, j));
    if j < |mem[x].forward| { SamePlace(row, q, path[j]); }
  }

  lemma SplicedLinked(
    mem: Memory, mem': Memory, row: seq<nat>, ts: seq<Tower>, x: nat, update: seq<nat>, path: seq<nat>, k: nat)
    requires Shape(mem, row, ts) && Linked(mem, row, ts) && Distinct(row) && FingersOf(row, ts, update, path, k)
    requires x in mem && x != NULL && x !in row && |mem[x].forward| <= |path|
    requires Spliced(mem, mem', x, update, |mem[x].forward|)
    requires Shape(mem', Inserted(row, k, x), Inserted(ts, k, Tower(mem[x].key, |mem[x].forward|)))
    ensures Linked(mem', Inserted(row, k, x), Inserted(ts, k, Tower(mem[x].key, |mem[x].forward|)))
  {
    var t := Tower(mem[x].key, |mem[x].forward|);
    var row', ts' := Inserted(row, k, x), Inserted(ts, k, t);
    forall p, j | 0 <= p < |row'| && 0 <= j < ts'[p].height
      ensures mem'[row'[p]].forward[j] == Ref(row', Next(ts', p, j))
    {
      if p == k {
        LinkNew(row, ts, path, k, x, t, j);
        assert update[j] == row[path[j]];
      } else {
        var q := if p < k then p else p - 1;
        assert row'[p] == row[q] && ts'[p] == ts[q];
        LinkOld(row, ts, path, k, x, t, q, j);
        SplicedPointer(mem, mem', row, ts, x, update, path, k, q, j);
      }
    }
  }

  lemma MirrorInserted(mem: Memory, mem': Memory, row: seq<nat>, tail: nat, x: nat, k: nat)
    requires 1 <= k <= |row|
    requires (forall p | 0 <= p < |row| :: row[p] in mem && row[p] in mem') && x in mem'
    requires Mirrored(mem, row, tail)
    requires forall p | 1 <= p < |row| && p != k :: mem'[row[p]].backward == mem[row[p]].backward
    requires mem'[x].backward == if k == 1 then NULL else row[k - 1]
    requires k < |row| ==> mem'[row[k]].backward == x
    ensures forall p | 0 <= p < |Inserted(row, k, x)| :: Inserted(row, k, x)[p] in mem'
    ensures Mirrored(mem', Inserted(row, k, x), if k < |row| then tail else x)
  {
    var row' := Inserted(row, k, x);
    forall p: nat | 1 <= p < |row'| ensures Back(mem', row', p) {
      var q := if p < k then p else p - 1;
      if p != k && 1 <= q { assert Back(mem, row, q); }
      assert row'[p] == if p == k then x else row[q];
      assert row'[p - 1] == if p <= k then row[p - 1] else if p == k + 1 then x else row[p - 2];
    }
  }

  // ---- taking one node out

  /** Every finger that pointed at x now points where x points; nothing else changed. */
  ghost predicate Unspliced(mem: Memory, mem': Memory, x: nat, update: seq<nat>, n: nat)
    requires x in mem && n <= |update|
    requires forall i | 0 <= i < n :: Grips(mem, x, update[i], i)
  {
    && mem'.Keys == mem.Keys
    && (forall a | a in mem :: mem'[a].key == mem[a].key && mem'[a].backward == mem[a].backward)
    && (forall a | a in mem :: |mem'[a].forward| == |mem[a].forward|)
    && (forall a, j {:trigger mem'[a].forward[j]} | a in mem && 0 <= j < |mem[a].forward| ::
          mem'[a].forward[j] == if j < n && a == update[j] then Around(mem, x, a, j) else mem[a].forward[j])
  }

  /** u is a finger on level i, and if it points at x then x has that level. */
  ghost predicate Grips(mem: Memory, x: nat, u: nat, i: nat)
    requires x in mem
  {
    u in mem && u != x && i < |mem[u].forward| && (mem[u].forward[i] == x ==> i < |mem[x].forward|)
  }

  ghost function Around(mem: Memory, x: nat, u: nat, i: nat): nat
    requires x in mem && Grips(mem, x, u, i)
  {
    if mem[u].forward[i] == x then mem[x].forward[i] else mem[u].forward[i]
  }

  /** A pointer of the row, led around position k, is the pointer of the shorter row. */
  lemma UnlinkOld(row: seq<nat>, ts: seq<Tower>, k: nat, p: nat, j: nat)
    requires |row| == |ts| && 1 <= k < |ts| && p < |ts| && p != k && j < ts[p].height
    ensures Ref(row, if Next(ts, p, j) == k then Next(ts, k, j) else Next(ts, p, j))
         == Ref(Removed(row, k), Next(Removed(ts, k), if p < k then p else p - 1, j))
  {
    NextRemoved(ts, k, p, j);
  }

  lemma FingersGrip(mem: Memory, row: seq<nat>, ts: seq<Tower>, update: seq<nat>, path: seq<nat>, k: nat, i: nat)
    requires Shape(mem, row, ts) && Linked(mem, row, ts) && Distinct(row)
    requires k < |row| && FingersOf(row, ts, update, path, k) && i < |path|
    ensures Grips(mem, row[k], update[i], i)
    ensures Around(mem, row[k], update[i], i)
         == Ref(row, if Next(ts, path[i], i) == k then Next(ts, k, i) else Next(ts, path[i], i))
  {
    assert mem[row[path[i]]].forward[i] == Ref(row, Next(ts, path[i], i));
    SamePlace(row, k, path[i]);
    if Next(ts, path[i], i) < |row| { SamePlace(row, k, Next(ts, path[i], i)); }
    if i < ts[k].height { assert mem[row[k]].forward[i] == Ref(row, Next(ts, k, i)); }
  }

  lemma UnsplicedPointer(
    mem: Memory, mem': Memory, row: seq<nat>, ts: seq<Tower>, update: seq<nat>, path: seq<nat>, k: nat, p: nat,
    j: nat)
    requires Shape(mem, row, ts) && Linked(mem, row, ts) && Distinct(row)
    requires k < |row| && FingersOf(row, ts, update, path, k) && ts[k].height <= |path|
    requires forall i | 0 <= i < |path| :: Grips(mem, row[k], update[i], i)
    requires Unspliced(mem, mem', row[k], update, |path|)
    requires p < |row| && p != k && j < ts[p].height
    ensures mem'[row[p]].forward[j] == Ref(Removed(row, k), Next(Removed(ts, k), if p < k then p else p - 1, j))
  {
    UnlinkOld(row, ts, k, p, j);
    assert mem[row[p]].forward[j] == Ref(row, Next(ts, p, j));
    if j < |path| {
      SamePlace(row, p, path[j]);
      FingersGrip(mem, row, ts, update, path, k, j);
      if p < k { FingersLast(ts, path, k, j, p); }
    }
  }

  lemma UnsplicedLinked(
    mem: Memory, mem': Memory, row: seq<nat>, ts: seq<Tower>, update: seq<nat>, path: seq<nat>, k: nat)
    requires Shape(mem, row, ts) && Linked(mem, row, ts) && Distinct(row)
    requires k < |row| && FingersOf(row, ts, update, path, k) && ts[k].height <= |path|
    requires forall i | 0 <= i < |path| :: Grips(mem, row[k], update[i], i)
    requires Unspliced(mem, mem', row[k], update, |path|)
    ensures Shape(mem', Removed(row, k), Removed(ts, k)) && Linked(mem', Removed(row, k), Removed(ts, k))
  {
    var row', ts' := Removed(row, k), Removed(ts, k);
    forall q, j: nat | 0 <= q < |row'| && j < ts'[q].height
      ensures mem'[row'[q]].forward[j] == Ref(row', Next(ts', q, j))
    {
      UnsplicedPointer(mem, mem', row, ts, update, path, k, if q < k then q else q + 1, j);
    }
  }

  lemma MirrorRemoved(mem: Memory, mem': Memory, row: seq<nat>, tail: nat, k: nat)
    requires 1 <= k < |row|
    requires forall p | 0 <= p < |row| :: row[p] in mem && row[p] in mem'
    requires Mirrored(mem, row, tail)
    requires forall p | 1 <= p < |row| && p != k + 1 :: mem'[row[p]].backward == mem[row[p]].backward
    requires k + 1 < |row| ==> mem'[row[k + 1]].backward == mem[row[k]].backward
    ensures forall p | 0 <= p < |Removed(row, k)| :: Removed(row, k)[p] in mem'
    ensures Mirrored(mem', Removed(row, k), if k + 1 < |row| then tail else mem[row[k]].backward)
  {
    var row' := Removed(row, k);
    assert Back(mem, row, k);
    forall p: nat | 1 <= p < |row'| ensures Back(mem', row', p) {
      assert Back(mem, row, if p < k then p else p + 1);
      assert row'[p] == if p < k then row[p] else row[p + 1];
      assert row'[p - 1] == if p <= k then row[p - 1] else row[p];
    }
  }

  // ---- the loops of the source, on a memory

  /** One inner `while` of a search: walk level i from x. */
  method WalkLevel(
    mem: Memory, ghost row: seq<nat>, ghost ts: seq<Tower>, x: nat, ghost p: nat, i: nat, rule: Rule, key: Key)
    returns (y: nat, ghost u: nat)
    requires Shape(mem, row, ts) && Linked(mem, row, ts)
    requires p < |row| && x == row[p] && i < ts[p].height
    ensures u == Walk(ts, p, i, rule, key)
    ensures y == row[u] && i < ts[u].height
  {
    y, u := x, p;
    while mem[y].forward[i] != NULL && Passes(rule, mem[mem[y].forward[i]].key, key)
      invariant u < |row| && y == row[u] && i < ts[u].height
      invariant Walk(ts, p, i, rule, key) == Walk(ts, u, i, rule, key)
      decreases |row| - u
    {
      u := Next(ts, u, i);
      y := mem[y].forward[i];
    }
  }

  /** The search loops shared by insert, delete and find: where each level stopped. */
  method Search(mem: Memory, ghost row: seq<nat>, ghost ts: seq<Tower>, header: nat, level: nat, rule: Rule, key: Key)
    returns (update: seq<nat>, ghost path: seq<nat>)
    requires Shape(mem, row, ts) && Linked(mem, row, ts)
    requires row[0] == header && level <= ts[0].height
    ensures |update| == |path| == level
    ensures Traced(ts, path, 0, rule, key) && Aligned(row, path, update, 0)
  {
    var x, i := header, level;
    update, path := Fill(level, header), Fill(level, 0);
    ghost var pos: nat := 0;
    while i > 0
      invariant 0 <= i <= level == |update| == |path|
      invariant Traced(ts, path, i, rule, key) && Aligned(row, path, update, i)
      invariant pos == (if i == level then 0 else path[i])
      invariant pos < |row| && x == row[pos] && i <= ts[pos].height
    {
      i := i - 1;
      ghost var u;
      x, u := WalkLevel(mem, row, ts, x, pos, i, rule, key);
      TraceLevel(ts, row, path, update, i, u, x, rule, key);
      update, path, pos := update[i := x], path[i := u], u;
    }
  }

  /** The levels above the list's own start at the header. */
  method Raise(
    ghost row: seq<nat>, ghost ts: seq<Tower>, header: nat, level: nat, update: seq<nat>, ghost path: seq<nat>,
    ghost k: nat, height: nat)
    returns (update': seq<nat>, ghost path': seq<nat>)
    requires |ts| > 0 && Leveled(ts, level) && height <= MAX_LEVEL
    requires FingersOf(row, ts, update, path, k) && row[0] == header && |path| == level
    ensures FingersOf(row, ts, update', path', k) && |path'| >= height && |path'| >= level
  {
    update', path' := update, path;
    while |update'| < height
      invariant |path'| >= level && FingersOf(row, ts, update', path', k)
    {
      NextUnique(ts, 0, |path'|, |ts|);
      FingersGrow(ts, path', 0, k);
      update', path' := update' + [header], path' + [0];
    }
  }

  /** The splicing loop of wlcsl_insert: on each level of x, between its finger and what came after. */
  method Splice(mem: Memory, x: nat, update: seq<nat>) returns (mem': Memory)
    requires x in mem && |mem[x].forward| <= |update| && x !in update
    requires forall i | 0 <= i < |update| :: update[i] in mem && i < |mem[update[i]].forward|
    ensures Spliced(mem, mem', x, update, |mem[x].forward|)
  {
    mem' := mem;
    for i := 0 to |mem[x].forward|
      invariant Spliced(mem, mem', x, update, i)
    {
      mem' := SetForward(mem', x, i, mem'[update[i]].forward[i]);
      mem' := SetForward(mem', update[i], i, x);
    }
  }

  /** The unlinking loop of wlcsl_node_delete. */
  method Unsplice(mem: Memory, x: nat, update: seq<nat>) returns (mem': Memory)
    requires x in mem && forall i | 0 <= i < |update| :: Grips(mem, x, update[i], i)
    ensures Unspliced(mem, mem', x, update, |update|)
  {
    mem' := mem;
    for i := 0 to |update|
      invariant Unspliced(mem, mem', x, update, i)
    {
      if mem'[update[i]].forward[i] == x {
        mem' := SetForward(mem', update[i], i, mem'[x].forward[i]);
      }
    }
  }

  /** The backward pointers and the tail after an insertion. */
  method HookIn(
    mem: Memory, x: nat, prev: nat, header: nat, tail: nat, ghost was: Memory, ghost row: seq<nat>, ghost k: nat)
    returns (mem': Memory, tail': nat)
    requires 1 <= k <= |row| && Distinct(row) && x !in row && row[0] == header
    requires (forall p | 0 <= p < |row| :: row[p] in mem && row[p] in was && row[p] != NULL) && x in mem
    requires Mirrored(was, row, tail)
    requires forall p | 0 <= p < |row| :: mem[row[p]].backward == was[row[p]].backward
    requires prev == row[k - 1] && |mem[x].forward| > 0 && mem[x].forward[0] == Ref(row, k)
    ensures mem'.Keys == mem.Keys
    ensures forall a | a in mem :: mem'[a] == mem[a].(backward := mem'[a].backward)
    ensures forall p | 0 <= p <= |row| :: Inserted(row, k, x)[p] in mem'
    ensures Mirrored(mem', Inserted(row, k, x), tail')
  {
    mem', tail' := SetBackward(mem, x, if prev == header then NULL else prev), tail;
    if mem'[x].forward[0] != NULL {
      mem' := SetBackward(mem', mem'[x].forward[0], x);
    } else {
      tail' := x;
    }
    SamePlace(row, 0, k - 1);
    if k < |row| {
      forall p: nat | p < |row| ensures p != k ==> row[p] != row[k] { SamePlace(row, p, k); }
    }
    MirrorInserted(was, mem', row, tail, x, k);
  }

  /** The backward pointers and the tail after a deletion. */
  method HookOut(mem: Memory, x: nat, tail: nat, ghost was: Memory, ghost row: seq<nat>, ghost k: nat)
    returns (mem': Memory, tail': nat)
    requires 1 <= k < |row| && Distinct(row) && x == row[k]
    requires forall p | 0 <= p < |row| :: row[p] in mem && row[p] in was && row[p] != NULL
    requires Mirrored(was, row, tail)
    requires forall p | 0 <= p < |row| :: mem[row[p]].backward == was[row[p]].backward
    requires |mem[x].forward| > 0 && mem[x].forward[0] == Ref(row, k + 1)
    ensures mem'.Keys == mem.Keys
    ensures forall a | a in mem :: mem'[a] == mem[a].(backward := mem'[a].backward)
    ensures forall p | 0 <= p < |row| - 1 :: Removed(row, k)[p] in mem'
    ensures Mirrored(mem', Removed(row, k), tail')
  {
    mem', tail' := mem, tail;
    if mem[x].forward[0] != NULL {
      mem' := SetBackward(mem, mem[x].forward[0], mem[x].backward);
    } else {
      tail' := mem[x].backward;
    }
    if k + 1 < |row| {
      forall p: nat | p < |row| ensures p != k + 1 ==> row[p] != row[k + 1] { SamePlace(row, p, k + 1); }
    }
    MirrorRemoved(was, mem', row, tail, k);
  }

  /** The loop that lowers the list's level past empty levels. */
  method Shrink(mem: Memory, ghost row: seq<nat>, ghost ts: seq<Tower>, header: nat, level: nat) returns (level': nat)
    requires Shape(mem, row, ts) && Linked(mem, row, ts) && row[0] == header
    requires 1 <= level <= MAX_LEVEL == ts[0].height
    requires forall p | 1 <= p < |ts| :: 1 <= ts[p].height <= level
    ensures Leveled(ts, level')
  {
    level' := level;
    while level' > 1 && mem[header].forward[level' - 1] == NULL
      invariant 1 <= level' <= MAX_LEVEL
      invariant forall p | 1 <= p < |ts| :: 1 <= ts[p].height <= level'
    {
      assert mem[row[0]].forward[level' - 1] == Ref(row, Next(ts, 0, level' - 1));
      level' := level' - 1;
    }
  }

  // ---- the list

  /** All pointers of a list are as its row of towers says. */
  ghost predicate Wired(mem: Memory, row: seq<nat>, ts: seq<Tower>, tail: nat) {
    Shape(mem, row, ts) && Linked(mem, row, ts) && Distinct(row) && Mirrored(mem, row, tail)
  }

  /** A memory that differs in backward pointers only is linked the same way. */
  lemma LinkedAgain(mem: Memory, mem': Memory, row: seq<nat>, ts: seq<Tower>)
    requires Shape(mem, row, ts) && Linked(mem, row, ts)
    requires mem'.Keys == mem.Keys && forall a | a in mem :: mem'[a] == mem[a].(backward := mem'[a].backward)
    ensures Shape(mem', row, ts) && Linked(mem', row, ts)
  {
    forall p, i | 0 <= p < |row| && 0 <= i < ts[p].height
      ensures mem'[row[p]].forward[i] == Ref(row, Next(ts, p, i))
    {
      assert mem[row[p]].forward[i] == Ref(row, Next(ts, p, i));
    }
  }

  /** The pointer surgery of wlcsl_insert. */
  method LinkIn(
    mem: Memory, ghost row: seq<nat>, ghost ts: seq<Tower>, header: nat, tail: nat, x: nat, node: Cell,
    update: seq<nat>, ghost path: seq<nat>, ghost k: nat)
    returns (mem': Memory, tail': nat)
    requires Wired(mem, row, ts, tail) && row[0] == header && x != NULL && x !in mem
    requires FingersOf(row, ts, update, path, k) && 1 <= |node.forward| <= |path| && path[0] == k - 1
    requires forall p | 1 <= p < |ts| :: 1 <= ts[p].height
    ensures mem'.Keys == mem.Keys + {x}
    ensures Wired(mem', Inserted(row, k, x), Inserted(ts, k, Tower(node.key, |node.forward|)), tail')
  {
    ghost var t := Tower(node.key, |node.forward|);
    var mem0 := mem[x := node];
    assert forall i | 0 <= i < |update| :: update[i] == row[path[i]];
    assert Shape(mem0, row, ts) && Linked(mem0, row, ts);
    var mem1 := Splice(mem0, x, update);
    SplicedShape(mem0, mem1, row, ts, x, update, path, k);
    SplicedLinked(mem0, mem1, row, ts, x, update, path, k);
    DistinctInserted(row, k, x);
    BottomPointer(mem1, row, ts, x, t, k);
    mem', tail' := HookIn(mem1, x, update[0], header, tail, mem, row, k);
    LinkedAgain(mem1, mem', Inserted(row, k, x), Inserted(ts, k, t));
  }

  lemma BottomPointer(mem: Memory, row: seq<nat>, ts: seq<Tower>, x: nat, t: Tower, k: nat)
    requires |row| == |ts| && 1 <= k <= |row| && 1 <= t.height && forall p | 1 <= p < |ts| :: 1 <= ts[p].height
    requires Shape(mem, Inserted(row, k, x), Inserted(ts, k, t)) && Linked(mem, Inserted(row, k, x), Inserted(ts, k, t))
    ensures x in mem && |mem[x].forward| > 0 && mem[x].forward[0] == Ref(row, k)
  {
    var row', ts' := Inserted(row, k, x), Inserted(ts, k, t);
    NextUnique(ts', k, 0, k + 1);
    assert row'[k] == x && ts'[k] == t && mem[row'[k]].forward[0] == Ref(row', Next(ts', k, 0));
  }

  /** The pointer surgery of wlcsl_node_delete. */
  method LinkOut(
    mem: Memory, ghost row: seq<nat>, ghost ts: seq<Tower>, tail: nat, x: nat, update: seq<nat>,
    ghost path: seq<nat>, ghost k: nat)
    returns (mem': Memory, tail': nat)
    requires Wired(mem, row, ts, tail) && 1 <= k < |row| && x == row[k]
    requires FingersOf(row, ts, update, path, k) && ts[k].height <= |path|
    requires forall p | 1 <= p < |ts| :: 1 <= ts[p].height
    ensures mem'.Keys == mem.Keys
    ensures mem'[x].forward == mem[x].forward
    ensures Wired(mem', Removed(row, k), Removed(ts, k), tail')
  {
    forall i: nat | i < |path| ensures Grips(mem, x, update[i], i) { FingersGrip(mem, row, ts, update, path, k, i); }
    var mem1 := Unsplice(mem, x, update);
    UnsplicedLinked(mem, mem1, row, ts, update, path, k);
    DistinctRemoved(row, k);
    NextUnique(ts, k, 0, k + 1);
    assert mem[row[k]].forward[0] == Ref(row, Next(ts, k, 0));
    mem', tail' := HookOut(mem1, x, tail, mem, row, k);
    LinkedAgain(mem1, mem', Removed(row, k), Removed(ts, k));
  }

  /** Row element k is gone and nothing else; the node taken out still knows its successors. */
  ghost predicate Deleted(
    mem: Memory, mem': Memory, row: seq<nat>, row': seq<nat>, ts: seq<Tower>, ts': seq<Tower>, k: nat)
  {
    && 1 <= k < |row| && |row| == |ts| && row' == Removed(row, k) && ts' == Removed(ts, k)
    && row[k] in mem && row[k] in mem' && mem'[row[k]].forward == mem[row[k]].forward
  }

  /** What a list in memory looks like between two calls. */
  ghost predicate Whole(
    mem: Memory, row: seq<nat>, ts: seq<Tower>, header: nat, tail: nat, length: nat, level: nat)
  {
    && Wired(mem, row, ts, tail) && row[0] == header && length == |row| - 1
    && Leveled(ts, level) && Sorted(ts)
  }

  /** The search of wlcsl_insert, with the header as finger on levels the list does not have yet. */
  method Seek(
    mem: Memory, ghost row: seq<nat>, ghost ts: seq<Tower>, header: nat, ghost tail: nat, ghost length: nat,
    level: nat, key: Key, height: nat)
    returns (update: seq<nat>, ghost path: seq<nat>)
    requires Whole(mem, row, ts, header, tail, length, level) && 1 <= height <= MAX_LEVEL
    ensures FingersOf(row, ts, update, path, Rank(ts, key))
    ensures height <= |path| && path[0] == Rank(ts, key) - 1
  {
    update, path := Search(mem, row, ts, header, level, Before, key);
    SearchFingers(ts, path, Before, key);
    update, path := Raise(row, ts, header, level, update, path, Rank(ts, key), height);
    BottomFinger(ts, path, Rank(ts, key), level);
  }

  /** wlcsl_insert on the memory. */
  method PutIn(
    mem: Memory, ghost row: seq<nat>, ghost ts: seq<Tower>, header: nat, tail: nat, ghost length: nat, level: nat,
    x: nat, key: Key, height: nat)
    returns (mem': Memory, tail': nat, level': nat)
    requires Whole(mem, row, ts, header, tail, length, level) && 1 <= height <= MAX_LEVEL && x != NULL && x !in mem
    ensures mem'.Keys == mem.Keys + {x}
    ensures
      var k := Rank(ts, key);
      Whole(mem', Inserted(row, k, x), Inserted(ts, k, Tower(key, height)), header, tail', length + 1, level')
  {
    ghost var k, t := Rank(ts, key), Tower(key, height);
    var update, path := Seek(mem, row, ts, header, tail, length, level, key, height);
    mem', tail' := LinkIn(mem, row, ts, header, tail, x, Cell(key, Fill(height, NULL), NULL), update, path, k);
    LeveledInserted(ts, k, t, level);
    InsertedSorted(ts, t);
    level' := if level < height then height else level;
  }

  class SkipList {
    var mem: Memory
    var header: nat
    var tail: nat
    var length: nat
    var level: nat
    ghost var row: seq<nat>        // the header, then the list in level-0 order
    ghost var towers: seq<Tower>   // the same row as a value

    ghost predicate Valid()
      reads this
    {
      Whole(mem, row, towers, header, tail, length, level)
    }

    /** wlcsl_create */
    constructor ()
      ensures Valid() && row == [header] && |towers| == 1
    {
      var node := Cell(Key(0, 0), Fill(MAX_LEVEL, NULL), NULL);
      header, tail, length, level := 1, NULL, 0, 1;
      mem, row, towers := map[1 := node], [1], [Tower(Key(0, 0), MAX_LEVEL)];
    }

    /** wlcsl_insert.  The random level and the address malloc returns are parameters. */
    method Insert(x: nat, wlc: int, id: nat, height: nat)
      requires Valid() && 1 <= height <= MAX_LEVEL && x != NULL && x !in mem
      modifies this
      ensures Valid() && header == old(header) && mem.Keys == old(mem.Keys) + {x}
      ensures row == Inserted(old(row), Rank(old(towers), Key(wlc, id)), x)
      ensures towers == Inserted(old(towers), Rank(old(towers), Key(wlc, id)), Tower(Key(wlc, id), height))
    {
      var key := Key(wlc, id);
      ghost var k, t := Rank(towers, key), Tower(key, height);
      var mem', tail', level' := PutIn(mem, row, towers, header, tail, length, level, x, key, height);
      mem, tail, length, level := mem', tail', length + 1, level';
      row, towers := Inserted(row, k, x), Inserted(towers, k, t);
    }

    /** The search of wlcsl_find and wlcsl_delete, with the comparison that ends it. */
    method Locate(key: Key) returns (x: nat, update: seq<nat>, ghost path: seq<nat>)
      requires Valid()
      ensures x != NULL <==> Unmasked(towers, key)
      ensures x != NULL ==> Rank(towers, key) < |row| && x == row[Rank(towers, key)]
      ensures x != NULL ==> towers[Rank(towers, key)].key == key
      ensures x != NULL ==> FingersOf(row, towers, update, path, Rank(towers, key)) && |path| == level
    {
      update, path := Search(mem, row, towers, header, level, Differs, key);
      SearchExact(towers, path, key);
      assert mem[row[path[0]]].forward[0] == Ref(row, Next(towers, path[0], 0));
      x := mem[update[0]].forward[0];
      if x != NULL && mem[x].key != key { x := NULL; }
    }

    /** wlcsl_node_delete */
    method NodeDelete(x: nat, update: seq<nat>, ghost path: seq<nat>, ghost k: nat)
      requires Valid() && 1 <= k < |row| && x == row[k]
      requires FingersOf(row, towers, update, path, k) && |path| == level
      modifies this
      ensures Valid() && header == old(header) && mem.Keys == old(mem.Keys)
      ensures row == Removed(old(row), k) && towers == Removed(old(towers), k)
      ensures mem[x].forward == old(mem[x].forward)
    {
      var mem', tail' := LinkOut(mem, row, towers, tail, x, update, path, k);
      RemovedSorted(towers, k);
      var level' := Shrink(mem', Removed(row, k), Removed(towers, k), header, level);
      mem, tail, length, level := mem', tail', length - 1, level';
      row, towers := Removed(row, k), Removed(towers, k);
    }

    /** wlcsl_delete: it unlinks a node exactly when the `!=` search can reach the key. */
    method Delete(wlc: int, id: nat) returns (found: bool)
      requires Valid()
      modifies this
      ensures Valid() && header == old(header) && mem.Keys == old(mem.Keys)
      ensures found <==> Unmasked(old(towers), Key(wlc, id))
      ensures found ==> Deleted(old(mem), mem, old(row), row, old(towers), towers, Rank(old(towers), Key(wlc, id)))
      ensures !found ==> mem == old(mem) && row == old(row) && towers == old(towers)
      ensures !found ==> tail == old(tail) && length == old(length) && level == old(level)
    {
      var x, update, path := Locate(Key(wlc, id));
      if x == NULL { return false; }
      NodeDelete(x, update, path, Rank(towers, Key(wlc, id)));
      return true;
    }

    /** wlcsl_find */
    method Find(wlc: int, id: nat) returns (x: nat)
      requires Valid()
      ensures x != NULL <==> Unmasked(towers, Key(wlc, id))
      ensures x != NULL ==> x in mem && mem[x].key == Key(wlc, id)
    {
      var y, update, path := Locate(Key(wlc, id));
      x := y;
    }
  }
}
